/** struct slab_chain and its operations. Memory is a map from addresses to the slab
    headers that live there; item contents are the caller's. */
module Slab {
  import opened Powers
  import opened Words
  import opened SlotMask
  import opened SlabSizing
  import opened SlabList
  import opened SlabInv
  import opened SlabSteps
  import opened SlabPages
  import opened SlabRelease
  import opened SlabWalk

  /** No slot of any mapped slab is free. */
  ghost predicate AllTaken(g: Geometry, m: Headers) {
    forall a, j: nat :: a in m && j < g.itemCount ==> j in Used(m[a].slots, g.itemCount)
  }

  /** An item handed out touches no header. */
  lemma HandedMisses(g: Geometry, m: Headers, partial: nat, empty: nat, full: nat, l: Lists, pages: set<nat>, r: nat,
      a: nat, before: set<(nat, nat)>)
    requires Inv(g, m, partial, empty, full, l, pages) && Handed(g, r, a, before, LiveItems(g, m))
    ensures forall b :: b in m ==> MissesHeader(r, g.itemSize, b)
  {
    hide MissesHeader, LiveItems, SlabOf, SlotOf, ItemAddr, IsList, Sorted, Layout, Counted;
    LiveMissHeaders(g, m, pages, a, SlotOf(g, r));
  }

  /** Where the slabs go when item j of slab `a` is given back: the slab of a full one becomes
      the first partial one, one that empties the first empty one, and with the last item of a
      page all its slabs leave their lists. The others keep their order. */
  ghost predicate Relisted(g: Geometry, m: Headers, l: Lists, l': Lists, a: nat, j: nat)
    requires Fits(g) && g.pagesPerAlloc > 0 && a in m
  {
    if m[a].slots == SLOTS_ALL_ZERO then
      l'.partial == [a] + l.partial && l'.empty == l.empty && Removed(l.full, a, l'.full)
    else if Used(m[a].slots, g.itemCount) != {j} then l' == l
    else
      && l'.full == l.full && Removed(l.partial, a, l'.partial)
      && if PageShared(g, LiveItems(g, m), a, j) then l'.empty == [a] + l.empty else
           && InOrder(l.empty, l'.empty)
           && forall x :: x in l'.empty <==> x in l.empty && PageOf(g, x) != PageOf(g, a)
  }

  lemma NoListNoSlot(g: Geometry, m: Headers, l: Lists)
    requires Fits(g) && Sorted(g, m, l)
    ensures l.partial == [] && l.empty == [] <==> AllTaken(g, m)
  {
    forall a | a in m
      ensures m[a].slots == SLOTS_ALL_ZERO <==> forall j: nat :: j < g.itemCount ==> j in Used(m[a].slots, g.itemCount)
    {
      MaskExtremes(m[a].slots, g.itemCount);
    }
    InitialMaskUsed(g.itemCount);
    MaskExtremes(EmptyMask(g.itemCount), g.itemCount);
    assert 0 !in Used(EmptyMask(g.itemCount), g.itemCount);
    if l.partial != [] {
      assert l.partial[0] in l.partial;
    }
    if l.empty != [] {
      assert l.empty[0] in l.empty;
    }
  }

  /** slab_alloc needs a new page exactly when no slot is free. */
  lemma OutOfSlots(g: Geometry, m: Headers, partial: nat, empty: nat, full: nat, l: Lists, pages: set<nat>)
    requires Inv(g, m, partial, empty, full, l, pages)
    ensures partial == NULL && empty == NULL <==> AllTaken(g, m)
  {
    hide AllTaken;
    NoListNoSlot(g, m, l);
  }

  /** `r` is the address of an item of slab `a` that was not live before, and now is: the
      lowest one that was free. */
  ghost predicate Handed(g: Geometry, r: nat, a: nat, before: set<(nat, nat)>, after: set<(nat, nat)>)
    requires Fits(g)
  {
    var j := SlotOf(g, r);
    && SlabOf(g, r) == a
    && 0 <= j < g.itemCount
    && r == ItemAddr(g, a, j)
    && (a, j as nat) !in before
    && (forall i: nat :: i < j ==> (a, i) in before)
    && after == before + {(a, j as nat)}
  }

  lemma HandOut(g: Geometry, m: Headers, m': Headers, pages: set<nat>, a: nat, v: nat, j: nat)
    requires Fits(g) && Layout(g, m, pages) && a in m && SlotsSet(m, m', a, v) && j < g.itemCount
    requires j !in Used(m[a].slots, g.itemCount) && Used(v, g.itemCount) == Used(m[a].slots, g.itemCount) + {j}
    requires forall i: nat :: i < j ==> i in Used(m[a].slots, g.itemCount)
    ensures Handed(g, ItemAddr(g, a, j), a, LiveItems(g, m), LiveItems(g, m'))
  {
    AddressRoundTrip(g, a, j);
    LiveAdded(g, m, m', a, v, j);
  }

  /** What the first branch of slab_alloc finds. */
  lemma PartialHead(g: Geometry, m: Headers, partial: nat, empty: nat, full: nat, l: Lists, pages: set<nat>)
    requires Inv(g, m, partial, empty, full, l, pages) && partial != NULL
    ensures g.itemCount <= 64 && l.partial != [] && partial == l.partial[0] && partial in l.partial
    ensures partial in m && m[partial].slots != SLOTS_ALL_ZERO && Masked(m[partial].slots, g.itemCount)
    ensures m[partial].next != NULL ==> m[partial].next in m && m[partial].next != partial
    ensures full != NULL ==> full in m && full != partial && full != m[partial].next
    ensures Fits(g) && Layout(g, m, pages)
    ensures l.empty == [] && l.partial == [] <==> AllTaken(g, m)
  {
    Parts(g, m, partial, empty, full, l, pages);
    HeadIsFirst(m, partial, l.partial);
    HeadIsFirst(m, full, l.full);
    NoListNoSlot(g, m, l);
    SecondOf(m, partial, l.partial);
    hide IsList, AllTaken, Layout, Counted, EmptyMask;
    assert full != NULL ==> full !in l.partial;
  }

  /** The statements that move the head of one list to the front of another, in one go. */
  lemma MovedHead(m: Headers, a: nat, v: nat, dst: nat)
    requires a in m && (m[a].next != NULL ==> m[a].next in m && m[a].next != a)
    requires dst != NULL ==> dst in m && dst != a && dst != m[a].next
    ensures CanTake(m, a, a) && HeadAfter(m, a, a) == m[a].next
    ensures var m1 := SetSlots(m, a, v);
      var m2 := if m[a].next != NULL then SetPrev(m1, m[a].next, NULL) else m1;
      var m3 := SetNext(m2, a, dst);
      Moved(m, a, v, a, dst) == (if dst != NULL then SetPrev(m3, dst, a) else m3)
    ensures SlotsSet(m, Moved(m, a, v, a, dst), a, v)
  {
  }

  /** What the second branch of slab_alloc finds. */
  lemma EmptyHead(g: Geometry, m: Headers, empty: nat, full: nat, l: Lists, pages: set<nat>)
    requires Inv(g, m, NULL, empty, full, l, pages) && empty != NULL
    ensures 2 <= g.itemCount <= 64 && l.empty != [] && l.partial == [] && empty == l.empty[0]
    ensures Fits(g) && Layout(g, m, pages)
    ensures empty in m && m[empty].slots == EmptyMask(g.itemCount)
    ensures m[empty].next != NULL ==> m[empty].next in m && m[empty].next != empty
    ensures Used(m[empty].slots, g.itemCount) == {} && Used(InitialMask(g.itemCount), g.itemCount) == {0}
  {
    Parts(g, m, NULL, empty, full, l, pages);
    HeadIsFirst(m, empty, l.empty);
    HeadIsFirst(m, NULL, l.partial);
    SecondOf(m, empty, l.empty);
    InitialMaskUsed(g.itemCount);
    MaskExtremes(EmptyMask(g.itemCount), g.itemCount);
  }

  /** The statements that turn the first empty slab into a partial one, in one go. */
  lemma OpenedHead(m: Headers, a: nat, v: nat)
    requires a in m && (m[a].next != NULL ==> m[a].next in m && m[a].next != a)
    requires Counter(m, a) in m
    ensures CanTake(m, a, a) && HeadAfter(m, a, a) == m[a].next
    ensures var h := Counter(m, a);
      var m1 := if m[a].next != NULL then SetPrev(m, m[a].next, NULL) else m;
      var m2 := SetNext(m1, a, NULL);
      var m3 := SetRefcount(m2, h, m2[h].refcount + 1);
      var moved := Moved(m, a, v, a, NULL);
      && h in moved
      && SetSlots(m3, a, v) == SetRefcount(moved, h, moved[h].refcount + 1)
      && SlotsSet(m, SetSlots(m3, a, v), a, v)
  {
    var h := Counter(m, a);
    var m1 := if m[a].next != NULL then SetPrev(m, m[a].next, NULL) else m;
    var m2 := SetNext(m1, a, NULL);
    var m3 := SetSlots(SetRefcount(m2, h, m2[h].refcount + 1), a, v);
    var moved := Moved(m, a, v, a, NULL);
    assert h in moved;
    var m4 := SetRefcount(moved, h, moved[h].refcount + 1);
    assert m3.Keys == m4.Keys;
    forall x | x in m3
      ensures m3[x] == m4[x]
    {
    }
  }

  lemma SecondOf(m: Headers, head: nat, s: seq<nat>)
    requires IsList(m, head, s) && s != []
    ensures head in m
    ensures m[head].next != NULL ==> m[head].next in m && m[head].next != head && m[head].next in s
  {
  }

  /** The first partial slab, its mask set to v, moved to the front of the full list. */
  function Closing(m: Headers, a: nat, v: nat, full: nat): Headers
    requires a in m && (m[a].next != NULL ==> m[a].next in m && m[a].next != a)
    requires full != NULL ==> full in m && full != a && full != m[a].next
  {
    var m1 := SetSlots(m, a, v);
    var m2 := if m[a].next != NULL then SetPrev(m1, m[a].next, NULL) else m1;
    var m3 := SetNext(m2, a, full);
    if full != NULL then SetPrev(m3, full, a) else m3
  }

  /** What taking the first free slot of the first partial slab leaves. */
  ghost predicate SlotTaken(g: Geometry, m: Headers, partial: nat, empty: nat, full: nat, l: Lists, pages: set<nat>)
    requires Fits(g) && l.partial != [] && partial in m && m[partial].slots != SLOTS_ALL_ZERO
    requires m[partial].next != NULL ==> m[partial].next in m && m[partial].next != partial
    requires full != NULL ==> full in m && full != partial && full != m[partial].next
  {
    var slot := FirstFreeSlot(m[partial].slots);
    var v := Xor(m[partial].slots, Pow2(slot));
    var m' := if v == SLOTS_ALL_ZERO then Closing(m, partial, v, full) else SetSlots(m, partial, v);
    && Handed(g, partial + DATA_OFFSET + slot * g.itemSize, partial, LiveItems(g, m), LiveItems(g, m'))
    && if v == SLOTS_ALL_ZERO
       then
         var l' := Lists(Without(l.partial, 0), l.empty, [partial] + l.full);
         Inv(g, m', m[partial].next, empty, partial, l', pages)
       else Inv(g, m', partial, empty, full, l, pages)
  }

  lemma PartialTaken(g: Geometry, m: Headers, partial: nat, empty: nat, full: nat, l: Lists, pages: set<nat>)
    requires Inv(g, m, partial, empty, full, l, pages) && partial != NULL
    ensures Fits(g) && l.partial != [] && partial in m && m[partial].slots != SLOTS_ALL_ZERO
    ensures m[partial].next != NULL ==> m[partial].next in m && m[partial].next != partial
    ensures full != NULL ==> full in m && full != partial && full != m[partial].next
    ensures partial == l.partial[0] && SlotTaken(g, m, partial, empty, full, l, pages)
  {
    hide Inv, IsList, Sorted, Layout, Counted, LiveItems, Handed, Used, Bit, Xor, Pow2, EmptyMask, Masked,
      FirstFreeSlot, Without, AllTaken, SlotsSet, CanTake, HeadAfter, Moved;
    PartialHead(g, m, partial, empty, full, l, pages);
    TakeSlot(m[partial].slots, g.itemCount);
    var slot := FirstFreeSlot(m[partial].slots);
    var v := Xor(m[partial].slots, Pow2(slot));
    if v == SLOTS_ALL_ZERO {
      PartialToFull(g, m, partial, empty, full, l, pages);
      MovedHead(m, partial, v, full);
      HandOut(g, m, Closing(m, partial, v, full), pages, partial, v, slot);
    } else {
      NotEmptyAfterTake(g, m[partial].slots, v, slot);
      StayPartial(g, m, partial, empty, full, l, pages, partial, v);
      HandOut(g, m, SetSlots(m, partial, v), pages, partial, v, slot);
    }
  }

  /** The first empty slab turned into a partial one with its first slot used. */
  function Opened(m: Headers, a: nat, v: nat): Headers
    requires a in m && (m[a].next != NULL ==> m[a].next in m && m[a].next != a) && Counter(m, a) in m
  {
    var m1 := if m[a].next != NULL then SetPrev(m, m[a].next, NULL) else m;
    var m2 := SetNext(m1, a, NULL);
    var h := Counter(m, a);
    SetSlots(SetRefcount(m2, h, m2[h].refcount + 1), a, v)
  }

  lemma EmptyOpened(g: Geometry, m: Headers, empty: nat, full: nat, l: Lists, pages: set<nat>)
    requires Inv(g, m, NULL, empty, full, l, pages) && empty != NULL
    ensures g.itemCount <= 64 && Fits(g) && l.empty != [] && empty in m && Counter(m, empty) in m
    ensures m[empty].next != NULL ==> m[empty].next in m && m[empty].next != empty
    ensures OpenedFirst(l, Lists([empty] + l.partial, Without(l.empty, 0), l.full), empty)
    ensures var m' := Opened(m, empty, InitialMask(g.itemCount));
      && Inv(g, m', empty, m[empty].next, full, Lists([empty] + l.partial, Without(l.empty, 0), l.full), pages)
      && Handed(g, empty + DATA_OFFSET, empty, LiveItems(g, m), LiveItems(g, m'))
  {
    hide Inv, IsList, Sorted, Layout, Counted, LiveItems, Handed, Used, Bit, Xor, Pow2, EmptyMask, Masked, InitialMask,
      Without, AllTaken, SlotsSet, CanTake, HeadAfter, Moved, SlabOf, SlotOf, AlignDown, PageOf;
    EmptyHead(g, m, empty, full, l, pages);
    RemovedAt(l.empty, 0);
    var v := InitialMask(g.itemCount);
    EmptyToPartial(g, m, empty, full, l, pages);
    CounterIn(g, m, empty, pages);
    OpenedHead(m, empty, v);
    HandOut(g, m, Opened(m, empty, v), pages, empty, v, 0);
  }

  /** Slab `a`, the first partial one, is the first full one if all its slots are now in use. */
  ghost predicate TakenFromFirst(l: Lists, l': Lists, m: Headers, a: nat) {
    && a in m && l.partial != [] && a == l.partial[0]
    && l' == if m[a].slots == SLOTS_ALL_ZERO then Lists(l.partial[1..], l.empty, [a] + l.full) else l
  }

  /** Slab `a`, the first empty one, is the only partial one. */
  ghost predicate OpenedFirst(l: Lists, l': Lists, a: nat) {
    l.partial == [] && l.empty != [] && a == l.empty[0] && l' == Lists([a], l.empty[1..], l.full)
  }

  /** The first slab of a new page is the only partial one, and the others of the page are
      empty, in order of address. */
  ghost predicate OpenedPage(l: Lists, l': Lists, p: nat) {
    && l.partial == [] && l.empty == []
    && l'.partial == [p] && l'.full == l.full
    && forall i, j :: 0 <= i < j < |l'.empty| ==> l'.empty[i] < l'.empty[j]
  }

  class SlabChain {
    const g: Geometry
    var partial: nat
    var empty: nat
    var full: nat
    var mem: Headers
    ghost var lists: Lists
    ghost var pages: set<nat>

    ghost predicate Valid()
      reads this
    {
      Inv(g, mem, partial, empty, full, lists, pages)
    }

    /** The items handed out and not yet given back. */
    ghost function Live(): set<(nat, nat)>
      reads this
    {
      LiveItems(g, mem)
    }

    constructor (itemSize: nat, pageSize: nat)
      requires itemSize >= 1 && IsPow2(pageSize)
      ensures Valid() && SlabSizing.Chosen(g, itemSize, pageSize)
      ensures Live() == {} && pages == {}
    {
      InitFits(itemSize, pageSize);
      g := SlabSizing.Init(itemSize, pageSize);
      partial, empty, full := NULL, NULL, NULL;
      mem := map[];
      lists := Lists([], [], []);
      pages := {};
    }

    /** slab_alloc. `os` is the region the system would return, and `raw` its contents. */
    method Alloc(os: Option<nat>, raw: nat -> Header) returns (r: Option<nat>)
      requires Valid()
      requires os.Some? ==> os.value > 0 && os.value % g.pagesPerAlloc == 0 && os.value !in pages
      modifies this
      ensures Valid()
      ensures r.None? <==> old(AllTaken(g, mem)) && os.None?
      ensures r.None? ==> mem == old(mem) && pages == old(pages) && lists == old(lists)
      // The item is one of the first partial slab, which may fill up,
      ensures old(partial) != NULL ==> r.Some? && Handed(g, r.value, old(partial), old(Live()), Live())
      ensures old(partial) != NULL ==> TakenFromFirst(old(lists), lists, mem, old(partial))
      // else of the first empty slab, else of a new page, which are then the only partial one.
      ensures old(partial) == NULL && old(empty) != NULL ==>
                r.Some? && Handed(g, r.value, old(empty), old(Live()), Live())
      ensures old(partial) == NULL && old(empty) != NULL ==> OpenedFirst(old(lists), lists, old(empty))
      ensures old(partial) == old(empty) == NULL && os.Some? ==>
                r.Some? && Handed(g, r.value, os.value, old(Live()), Live())
      ensures old(partial) == old(empty) == NULL && os.Some? ==> OpenedPage(old(lists), lists, os.value)
      ensures r.Some? ==> pages == if old(AllTaken(g, mem)) then old(pages) + {os.value} else old(pages)
      // The client may write the item without touching a header.
      ensures r.Some? ==> forall b :: b in mem ==> MissesHeader(r.value, g.itemSize, b)
    {
      hide Inv, Handed, MissesHeader, LiveItems, AllTaken, TakenFromFirst, OpenedFirst, OpenedPage;
      ghost var live := Live();
      ghost var a := if partial != NULL then partial else if empty != NULL then empty else
        if os.Some? then os.value else NULL;
      OutOfSlots(g, mem, partial, empty, full, lists, pages);
      if partial != NULL {
        r := AllocPartial();
      } else if empty != NULL {
        r := AllocEmpty();
      } else if os.None? {
        partial := NULL;
        return None;
      } else {
        r := AllocPage(os.value, raw);
      }
      HandedMisses(g, mem, partial, empty, full, lists, pages, r.value, a, live);
    }

    /** The first branch of slab_alloc: the first free slot of the first partial slab. */
    method AllocPartial() returns (r: Option<nat>)
      requires Valid() && partial != NULL
      modifies this
      ensures Valid() && pages == old(pages)
      ensures r.Some? && Handed(g, r.value, old(partial), old(Live()), Live())
      ensures TakenFromFirst(old(lists), lists, mem, old(partial))
    {
      hide Inv, Fits, LiveItems, Handed, Xor, Pow2, FirstFreeSlot, Without;
      ghost var m, l := mem, lists;
      ghost var a := partial;
      PartialTaken(g, m, partial, empty, full, l, pages);
      RemovedAt(l.partial, 0);
      var slot := FirstFreeSlot(mem[partial].slots);
      mem := SetSlots(mem, partial, Xor(mem[partial].slots, Pow2(slot)));
      if mem[partial].slots == SLOTS_ALL_ZERO {
        var tmp := partial;
        partial := mem[partial].next;
        if partial != NULL {
          mem := SetPrev(mem, partial, NULL);
        }
        mem := SetNext(mem, tmp, full);
        if full != NULL {
          mem := SetPrev(mem, full, tmp);
        }
        full := tmp;
        lists := Lists(Without(l.partial, 0), l.empty, [a] + l.full);
        r := Some(full + DATA_OFFSET + slot * g.itemSize);
      } else {
        r := Some(partial + DATA_OFFSET + slot * g.itemSize);
      }
    }

    /** The second branch: the first empty slab becomes the only partial one. */
    method AllocEmpty() returns (r: Option<nat>)
      requires Valid() && partial == NULL && empty != NULL
      modifies this
      ensures Valid() && pages == old(pages)
      ensures r.Some? && Handed(g, r.value, old(empty), old(Live()), Live())
      ensures OpenedFirst(old(lists), lists, old(empty))
    {
      hide Inv, Fits, LiveItems, Handed, InitialMask, Without, OpenedFirst;
      ghost var m, l := mem, lists;
      ghost var a := empty;
      EmptyOpened(g, m, empty, full, l, pages);
      partial := empty;
      empty := mem[empty].next;
      if empty != NULL {
        mem := SetPrev(mem, empty, NULL);
      }
      mem := SetNext(mem, partial, NULL);
      if mem[partial].refcount != 0 {
        mem := SetRefcount(mem, partial, mem[partial].refcount + 1);
      } else {
        mem := SetRefcount(mem, mem[partial].page, mem[mem[partial].page].refcount + 1);
      }
      mem := SetSlots(mem, partial, InitialMask(g.itemCount));
      lists := Lists([a] + l.partial, Without(l.empty, 0), l.full);
      r := Some(partial + DATA_OFFSET);
    }

    /** The third branch: a new page. */
    method AllocPage(page: nat, raw: nat -> Header) returns (r: Option<nat>)
      requires Valid() && partial == NULL && empty == NULL
      requires page > 0 && page % g.pagesPerAlloc == 0 && page !in pages
      modifies this
      ensures Valid() && pages == old(pages) + {page}
      ensures r.Some? && Handed(g, r.value, page, old(Live()), Live())
      ensures OpenedPage(old(lists), lists, page)
    {
      hide Inv, Layout, LiveItems, Handed, Fits, Fresh, LaidOut, Nth, NthOrNull, Tail, PageOf, SlabsPerPage;
      ghost var m, l := mem, lists;
      BothEmpty(g, m, full, l, pages);
      FreshPage(g, m, page, pages);
      ghost var n := SlabsPerPage(g);
      LayOut(page, raw, n);
      NewPageInv(g, m, mem, page, full, l, pages);
      TailAscends(g, page, n);
      lists := Lists([page], Tail(g, page, n), l.full);
      pages := pages + {page};
      FreshItem(g, m, mem, page, pages);
      r := Some(partial + DATA_OFFSET);
    }

    /** Lays the slabs of a page out in order of address: the first one partial, with its
        first slot used, and the others on the empty list. */
    method LayOut(page: nat, raw: nat -> Header, ghost n: nat)
      requires Fits(g) && g.itemCount <= 64 && page > 0 && n >= 1
      requires Fresh(g, mem, page, n) && Nth(g, page, n) == page + g.pagesPerAlloc
      requires empty == NULL
      modifies this
      ensures LaidOut(g, old(mem), mem, page, n)
      ensures partial == page && empty == NthOrNull(g, page, 1, n)
      ensures full == old(full) && lists == old(lists) && pages == old(pages)
    {
      ghost var m := mem;
      hide EmptyMask, InitialMask, LaidUpTo, LaidOut, Fresh, Fits, Nth;
      partial := page;
      var pageEnd := partial + g.pagesPerAlloc;
      var curr := partial + g.slabSize;
      mem := mem[partial := raw(partial).(prev := NULL, next := NULL, refcount := 1,
                                          slots := InitialMask(g.itemCount))];
      LayFirst(g, m, page, n, mem[partial]);
      NthFacts(g, page, 0);
      AddressEnd(g, page, 1, n);
      if curr != pageEnd {
        LayNext(g, m, mem, page, 1, n,
                raw(curr).(prev := NULL, refcount := 0, page := partial, slots := EmptyMask(g.itemCount)));
        mem := mem[curr := raw(curr).(prev := NULL, refcount := 0, page := partial, slots := EmptyMask(g.itemCount))];
        empty := curr;
        var prev := curr;
        NthFacts(g, page, 1);
        ghost var k := 2;
        curr := curr + g.slabSize;
        AddressEnd(g, page, k, n);
        while curr != pageEnd
          invariant 2 <= k <= n && curr == Nth(g, page, k) && prev == Nth(g, page, k - 1)
          invariant curr == pageEnd <==> k == n
          invariant LaidUpTo(g, m, mem, page, k)
          invariant partial == page && empty == Nth(g, page, 1)
          invariant full == old(full) && lists == old(lists) && pages == old(pages)
          decreases n - k
        {
          LayNext(g, m, mem, page, k, n,
                  raw(curr).(prev := prev, refcount := 0, page := partial, slots := EmptyMask(g.itemCount)));
          mem := SetNext(mem, prev, curr);
          mem := mem[curr := raw(curr).(prev := prev, refcount := 0, page := partial, slots := EmptyMask(g.itemCount))];
          prev := curr;
          NthFacts(g, page, k);
          k := k + 1;
          curr := curr + g.slabSize;
          AddressEnd(g, page, k, n);
        }
        LayLast(g, m, mem, page, n);
        mem := SetNext(mem, prev, NULL);
      }
    }

    /** if ((x->prev->next = x->next) != NULL) x->next->prev = x->prev */
    method UnlinkInner(x: nat)
      requires x in mem && mem[x].prev in mem && mem[x].prev != x
      requires mem[x].next != NULL ==> mem[x].next in mem
      modifies this`mem
      ensures mem == Unlink(old(mem), x)
    {
      mem := SetNext(mem, mem[x].prev, mem[x].next);
      if mem[x].next != NULL {
        mem := SetPrev(mem, mem[x].next, mem[x].prev);
      }
    }

    /** slab_free; addresses are 64-bit. */
    method Free(addr: nat)
      requires Valid() && IsLive(g, mem, addr) && addr < Pow2(64)
      modifies this
      ensures Valid()
      ensures Live() == old(Live()) - {(SlabOf(g, addr), SlotOf(g, addr) as nat)}
      ensures pages == if old(PageShared(g, Live(), SlabOf(g, addr), SlotOf(g, addr))) then old(pages)
                       else old(pages) - {PageOf(g, SlabOf(g, addr))}
      ensures SlabOf(g, addr) in old(mem)
      ensures Relisted(g, old(mem), old(lists), lists, SlabOf(g, addr), SlotOf(g, addr))
    {
      hide Inv, IsList, Sorted, Layout, Counted, Fits, LiveItems, IsLive, PageShared, OneUsedSlot, PageOf, SlabOf,
        ItemAddr, Used, Masked, EmptyMask, Pow2, And, Or, Not;
      ItemOf(g, mem, partial, empty, full, lists, pages, addr);
      MaskedSlab(g, mem, partial, empty, full, lists, pages, addr);
      var slab := And(addr, Not(g.slabSize - 1, 64));
      var slot: nat := (addr - slab - DATA_OFFSET) / g.itemSize;
      LiveSlab(g, mem, partial, empty, full, lists, pages, slab, slot);
      if mem[slab].slots == SLOTS_ALL_ZERO {
        FreeIntoFull(slab, slot);
      } else if OneUsedSlot(mem[slab].slots, EmptyMask(g.itemCount)) {
        LastOnPage(g, mem, partial, empty, full, lists, pages, slab, slot);
        if mem[slab].refcount == 1 || (mem[slab].refcount == 0 && mem[mem[slab].page].refcount == 1) {
          ReleasePage(slab, slot);
        } else {
          FreeLastItem(slab, slot);
        }
      } else {
        KeepsPartial(g, mem, partial, empty, full, lists, pages, slab, slot);
        mem := SetSlots(mem, slab, Or(mem[slab].slots, Pow2(slot)));
      }
    }

    /** The slab was full and becomes partial. */
    method FreeIntoFull(slab: nat, slot: nat)
      requires Valid() && (slab, slot) in Live() && slab in mem && mem[slab].slots == SLOTS_ALL_ZERO
      modifies this
      ensures Valid() && pages == old(pages)
      ensures Live() == old(Live()) - {(slab, slot)}
      ensures PageShared(g, old(Live()), slab, slot)
      ensures lists.partial == [slab] + old(lists).partial && lists.empty == old(lists).empty
      ensures Removed(old(lists).full, slab, lists.full)
    {
      hide Inv, IsList, Sorted, Layout, Counted, Fits, LiveItems, PageShared, PageOf, Used, Masked, EmptyMask, Pow2,
        Without, SlotsSet, Bit, Removed;
      ghost var m, l := mem, lists;
      ghost var i := InFull(g, m, partial, empty, full, l, pages, slab, slot);
      RemovedAt(l.full, i);
      mem := SetSlots(mem, slab, Pow2(slot));
      if slab != full {
        UnlinkInner(slab);
        mem := SetPrev(mem, slab, NULL);
      } else {
        full := mem[full].next;
        if full != NULL {
          mem := SetPrev(mem, full, NULL);
        }
      }
      mem := SetNext(mem, slab, partial);
      if partial != NULL {
        mem := SetPrev(mem, partial, slab);
      }
      partial := slab;
      lists := Lists([slab] + l.partial, l.empty, Without(l.full, i));
    }

    /** The slab's only used slot is given back, and another slab keeps the page. */
    method FreeLastItem(slab: nat, slot: nat)
      requires Valid() && (slab, slot) in Live() && slab in mem && g.itemCount <= 64
      requires mem[slab].slots != SLOTS_ALL_ZERO && Used(mem[slab].slots, g.itemCount) == {slot}
      requires Counter(mem, slab) in mem && mem[Counter(mem, slab)].refcount != 1
      modifies this
      ensures Valid() && pages == old(pages)
      ensures Live() == old(Live()) - {(slab, slot)}
      ensures lists.empty == [slab] + old(lists).empty && lists.full == old(lists).full
      ensures Removed(old(lists).partial, slab, lists.partial)
    {
      hide Inv, IsList, Sorted, Layout, Counted, Fits, LiveItems, PageShared, PageOf, Used, Masked, EmptyMask, Pow2,
        Without, SlotsSet, Bit, Removed;
      ghost var m, l := mem, lists;
      ghost var i := InPartial(g, m, partial, empty, full, l, pages, slab, slot);
      RemovedAt(l.partial, i);
      mem := SetSlots(mem, slab, EmptyMask(g.itemCount));
      if slab != partial {
        UnlinkInner(slab);
        mem := SetPrev(mem, slab, NULL);
      } else {
        partial := mem[partial].next;
        if partial != NULL {
          mem := SetPrev(mem, partial, NULL);
        }
      }
      mem := SetNext(mem, slab, empty);
      if empty != NULL {
        mem := SetPrev(mem, empty, slab);
      }
      empty := slab;
      if mem[slab].refcount != 0 {
        mem := SetRefcount(mem, slab, mem[slab].refcount - 1);
      } else {
        mem := SetRefcount(mem, mem[slab].page, mem[mem[slab].page].refcount - 1);
      }
      lists := Lists(Without(l.partial, i), [slab] + l.empty, l.full);
    }

    /** The slab holds the last live item of its page: every slab of the page leaves its
        list, and the page is unmapped. */
    method ReleasePage(slab: nat, slot: nat)
      requires Valid() && (slab, slot) in Live() && slab in mem && g.itemCount <= 64
      requires mem[slab].slots != SLOTS_ALL_ZERO && Used(mem[slab].slots, g.itemCount) == {slot}
      requires Counter(mem, slab) in mem && mem[Counter(mem, slab)].refcount == 1 && g.pagesPerAlloc > 0
      modifies this
      ensures Valid() && pages == old(pages) - {PageOf(g, slab)}
      ensures Live() == old(Live()) - {(slab, slot)}
      ensures lists.full == old(lists).full && Removed(old(lists).partial, slab, lists.partial)
      ensures InOrder(old(lists).empty, lists.empty)
      ensures forall x :: x in lists.empty <==> x in old(lists).empty && PageOf(g, x) != PageOf(g, slab)
    {
      hide Inv, IsList, Sorted, Layout, Counted, LiveItems, PageOf, Used, Masked, EmptyMask, Without, Sweeping,
        Unmapped, Lone, Unlink, Listed, SlabOf, Fits, SameContents, Removed, InOrder;
      ghost var m, l := mem, lists;
      ghost var i := ToRelease(g, m, partial, empty, full, l, pages, slab, slot);
      RemovedAt(l.partial, i);
      var page := if mem[slab].refcount != 0 then slab else mem[slab].page;
      if slab != partial {
        UnlinkInner(slab);
      } else {
        partial := mem[partial].next;
        if partial != NULL {
          mem := SetPrev(mem, partial, NULL);
        }
      }
      OffPartial(g, m, mem, old(partial), empty, full, l, pages, partial, i);
      ghost var swept := Lists(Without(l.partial, i), l.empty, l.full);
      ghost var cur := l.empty;
      InOrderSelf(cur);
      var pageEnd := page + g.pagesPerAlloc;
      var foundHead := false;
      var s := page;
      while s != pageEnd
        invariant Sweeping(g, m, mem, partial, empty, full, swept, cur, slab, page, s, foundHead)
        invariant InOrder(l.empty, cur)
        invariant s <= pageEnd && empty == old(empty) && full == old(full) && pages == old(pages)
        decreases pageEnd - s
      {
        SweepBounds(g, m, mem, partial, empty, full, swept, cur, slab, page, s, foundHead);
        if s == empty || s == slab {
          SweepSkip(g, m, mem, partial, empty, full, swept, cur, slab, page, s, foundHead);
        }
        if s == empty {
          foundHead := true;
        } else if s != slab {
          ghost var k := SweepUnlink(g, m, mem, partial, empty, full, swept, cur, slab, page, s, foundHead);
          UnlinkInner(s);
          InOrderWithout(l.empty, cur, k);
          cur := Without(cur, k);
        }
        s := s + g.slabSize;
      }
      ghost var l' := SweepEnd(g, m, mem, partial, empty, full, swept, cur, slab, page, foundHead);
      if foundHead {
        InOrderWithout(l.empty, cur, 0);
        empty := mem[empty].next;
        if empty != NULL {
          mem := SetPrev(mem, empty, NULL);
        }
      }
      FinishRelease(g, m, mem, old(partial), old(empty), old(full), l, pages, partial, empty, l', i, slot);
      mem := Unmapped(g, mem, page);
      lists := l';
      pages := pages - {page};
    }

    /** slab_traverse: the addresses func is called on, in order. */
    method Traverse() returns (calls: seq<nat>)
      requires Valid()
      ensures NoDup(calls)
      ensures forall a, j :: (a, j) in Live() ==> ItemAddr(g, a, j) in calls
      ensures forall c :: c in calls ==> exists x :: x in Live() && c == ItemAddr(g, x.0, x.1)
    {
      hide Inv, IsList, ListItems, LiveItems, ItemAddr, Addresses, NoDup, Forward;
      TraversalExact(g, mem, partial, empty, full, lists, pages);
      WalkStart(g, mem, partial, empty, full, lists, pages);
      calls := [];
      var slab := partial;
      ghost var i := 0;
      while slab != NULL
        invariant 0 <= i <= |lists.partial| && slab == At(lists.partial, i)
        invariant calls + Addresses(g, ListItems(g, mem, lists.partial[i..]))
               == Addresses(g, ListItems(g, mem, lists.partial))
        decreases |lists.partial| - i
      {
        WalkStep(g, mem, partial, lists.partial, i);
        ListItemsStep(g, mem, lists.partial, i);
        var items := VisitPartial(slab);
        ghost var rest := Addresses(g, ListItems(g, mem, lists.partial[i + 1..]));
        assert (calls + items) + rest == calls + (items + rest);
        calls := calls + items;
        slab := mem[slab].next;
        i := i + 1;
      }
      NothingLeft(g, mem, lists.partial, i);
      ghost var first := Addresses(g, ListItems(g, mem, lists.partial));
      assert calls == first;
      slab, i := full, 0;
      while slab != NULL
        invariant 0 <= i <= |lists.full| && slab == At(lists.full, i)
        invariant calls + Addresses(g, ListItems(g, mem, lists.full[i..]))
               == first + Addresses(g, ListItems(g, mem, lists.full))
        decreases |lists.full| - i
      {
        WalkStep(g, mem, full, lists.full, i);
        ListItemsStep(g, mem, lists.full, i);
        var items := VisitFull(slab);
        ghost var rest := Addresses(g, ListItems(g, mem, lists.full[i + 1..]));
        assert (calls + items) + rest == calls + (items + rest);
        calls := calls + items;
        slab := mem[slab].next;
        i := i + 1;
      }
      NothingLeft(g, mem, lists.full, i);
      VisitedLive(g, mem, ListItems(g, mem, lists.partial), ListItems(g, mem, lists.full), calls);
    }

    /** The items of a partial slab whose slot is in use. */
    method VisitPartial(slab: nat) returns (calls: seq<nat>)
      requires Fits(g) && slab in mem
      ensures calls == Addresses(g, SlabItems(slab, mem[slab].slots, g.itemCount, 0))
    {
      hide And, Bit, Pow2, SlabItems, Addresses, IsPow2;
      var item := slab + DATA_OFFSET;
      var end := item + g.itemCount * g.itemSize;
      var mask := SLOTS_FIRST;
      calls := [];
      ghost var j := 0;
      FirstMask();
      ghost var all := Addresses(g, SlabItems(slab, mem[slab].slots, g.itemCount, 0));
      while true
        invariant 0 <= j < g.itemCount && item == ItemAddr(g, slab, j) && mask == Pow2(j)
        invariant calls + Addresses(g, SlabItems(slab, mem[slab].slots, g.itemCount, j)) == all
        decreases g.itemCount - j
      {
        MaskTest(mem[slab].slots, j);
        SlabItemsStep(g, slab, mem[slab].slots, j);
        ItemStep(g, slab, j);
        ghost var rest := Addresses(g, SlabItems(slab, mem[slab].slots, g.itemCount, j + 1));
        assert calls + ([item] + rest) == (calls + [item]) + rest && calls + ([] + rest) == calls + rest;
        if And(mem[slab].slots, mask) == 0 {
          calls := calls + [item];
        }
        mask := mask * 2;
        item := item + g.itemSize;
        j := j + 1;
        if item == end {
          break;
        }
      }
      NoItemsLeft(g, slab, mem[slab].slots);
    }

    /** All items of a full slab. */
    method VisitFull(slab: nat) returns (calls: seq<nat>)
      requires Fits(g) && slab in mem && mem[slab].slots == SLOTS_ALL_ZERO
      ensures calls == Addresses(g, SlabItems(slab, mem[slab].slots, g.itemCount, 0))
    {
      hide Bit, Pow2, SlabItems, Addresses, IsPow2;
      var item := slab + DATA_OFFSET;
      var end := item + g.itemCount * g.itemSize;
      calls := [];
      ghost var j := 0;
      ghost var all := Addresses(g, SlabItems(slab, mem[slab].slots, g.itemCount, 0));
      while true
        invariant 0 <= j < g.itemCount && item == ItemAddr(g, slab, j)
        invariant calls + Addresses(g, SlabItems(slab, mem[slab].slots, g.itemCount, j)) == all
        decreases g.itemCount - j
      {
        ZeroBit(j);
        SlabItemsStep(g, slab, mem[slab].slots, j);
        ItemStep(g, slab, j);
        ghost var rest := Addresses(g, SlabItems(slab, mem[slab].slots, g.itemCount, j + 1));
        assert calls + ([item] + rest) == (calls + [item]) + rest;
        calls := calls + [item];
        item := item + g.itemSize;
        j := j + 1;
        if item == end {
          break;
        }
      }
      NoItemsLeft(g, slab, mem[slab].slots);
    }

    /** slab_destroy: the pages unmapped, in order. */
    method Destroy() returns (released: seq<nat>)
      requires Valid()
      modifies this`mem
      ensures NoDup(released) && forall p :: p in released <==> p in pages
      ensures mem == map[]
    {
      hide Inv, Collecting, NoDup, PageHeads, Unmapping, Unmapped, Chained;
      ghost var m, l := mem, lists;
      DestroyStart(g, m, partial, empty, full, l, pages);
      var pagesHead, pagesTail := NULL, NULL;
      ghost var ph: seq<nat> := [];
      pagesHead, pagesTail, ph := CollectPages(partial, pagesHead, pagesTail, l.partial, ph, m);
      DestroySecond(g, m, mem, partial, empty, full, l, pages, pagesHead, pagesTail, ph);
      pagesHead, pagesTail, ph := CollectPages(empty, pagesHead, pagesTail, l.empty, ph, m);
      DestroyThird(g, m, mem, partial, empty, full, l, pages, pagesHead, pagesTail, ph);
      pagesHead, pagesTail, ph := CollectPages(full, pagesHead, pagesTail, l.full, ph, m);
      DestroyCollected(g, m, mem, partial, empty, full, l, pages, pagesHead, pagesTail, ph);

      released := [];
      if pagesHead != NULL {
        mem := SetNext(mem, pagesTail, NULL);
        released := UnmapPages(pagesHead, ph);
      }
    }

    /** The final loop of slab_destroy: unmaps the pages along `next`. */
    method UnmapPages(head: nat, ghost ph: seq<nat>) returns (released: seq<nat>)
      requires g.pagesPerAlloc > 0 && ph != [] && head == ph[0] && NULL !in ph && NoDup(ph)
      requires Chained(mem, ph) && ph[|ph| - 1] in mem && mem[ph[|ph| - 1]].next == NULL
      requires forall p :: p in ph ==> PageOf(g, p) == p
      requires forall a :: a in mem ==> PageOf(g, a) in ph
      modifies this`mem
      ensures released == ph && mem == map[]
    {
      hide Unmapping, Unmapped, Chained, NoDup, PageOf;
      ghost var m := mem;
      var page := head;
      ghost var k := 0;
      released := [];
      UnmapStart(g, m, ph);
      while true
        invariant 0 <= k < |ph| && page == ph[k] && released == ph[..k]
        invariant Unmapping(g, m, mem, ph, k)
        decreases |ph| - k
      {
        UnmapNext(g, m, mem, ph, k);
        NextPage(m, ph, k);
        var target := page;
        page := mem[page].next;
        mem := Unmapped(g, mem, target);
        released := released + [target];
        k := k + 1;
        if page == NULL {
          break;
        }
      }
      AllUnmapped(g, m, m, mem, ph, k);
    }

    /** The walk over one list that strings the page headers together. */
    method CollectPages(first: nat, head: nat, tail: nat, ghost s: seq<nat>, ghost ph: seq<nat>, ghost m: Headers)
      returns (head': nat, tail': nat, ghost ph': seq<nat>)
      requires Collecting(m, mem, first, s, head, tail, ph, pages)
      modifies this`mem
      ensures Collecting(m, mem, NULL, [], head', tail', ph', pages)
      ensures ph' == ph + PageHeads(s, pages)
    {
      hide Collecting;
      head', tail', ph' := head, tail, ph;
      var slab := first;
      ghost var rest := s;
      while slab != NULL
        invariant Collecting(m, mem, slab, rest, head', tail', ph', pages)
        invariant ph' + PageHeads(rest, pages) == ph + PageHeads(s, pages)
        decreases |rest|
      {
        CollectLook(m, mem, slab, rest, head', tail', ph', pages);
        if mem[slab].refcount != 0 {
          CollectTake(m, mem, slab, rest, head', tail', ph', pages);
          var page := slab;
          slab := mem[slab].next;
          if head' == NULL {
            head' := page;
          } else {
            mem := SetNext(mem, tail', page);
          }
          tail' := page;
          assert (ph' + [page]) + PageHeads(rest[1..], pages) == ph' + ([page] + PageHeads(rest[1..], pages));
          ph' := ph' + [page];
        } else {
          CollectSkip(m, mem, slab, rest, head', tail', ph', pages);
          slab := mem[slab].next;
          assert [] + PageHeads(rest[1..], pages) == PageHeads(rest[1..], pages);
        }
        rest := rest[1..];
      }
      CollectEnd(m, mem, rest, head', tail', ph', pages);
    }
  }

  lemma ToRelease(g: Geometry, m: Headers, partial: nat, empty: nat, full: nat, l: Lists, pages: set<nat>, a: nat,
      j: nat) returns (i: nat)
    requires Inv(g, m, partial, empty, full, l, pages) && (a, j) in LiveItems(g, m) && a in m && g.itemCount <= 64
    requires m[a].slots != SLOTS_ALL_ZERO && Used(m[a].slots, g.itemCount) == {j}
    requires Counter(m, a) in m && m[Counter(m, a)].refcount == 1 && g.pagesPerAlloc > 0
    ensures i < |l.partial| && l.partial[i] == a && Lone(g, m, a) && Counter(m, a) == PageOf(g, a)
    ensures partial in m && (m[a].next != NULL ==> m[a].next in m && m[a].next != a)
    ensures a != partial ==> m[a].prev in m && m[a].prev != a
  {
    hide Inv, IsList, Sorted, Layout, Counted, Fits, LiveItems, PageOf, Used, Masked, EmptyMask, PageShared;
    Parts(g, m, partial, empty, full, l, pages);
    AllMasked(g, m, l);
    LiveSlab(g, m, partial, empty, full, l, pages, a, j);
    i := IndexOf(l.partial, a);
    LinksOf(m, partial, l.partial, i);
    CountDecides(g, m, pages, a, j);
  }

  lemma AllMasked(g: Geometry, m: Headers, l: Lists)
    requires Fits(g) && Sorted(g, m, l)
    ensures forall x :: x in m ==> Masked(m[x].slots, g.itemCount)
  {
  }

  /** The slab has been taken off the partial list, and nothing else has changed. */
  lemma OffPartial(g: Geometry, m: Headers, m': Headers, partial: nat, empty: nat, full: nat, l: Lists,
      pages: set<nat>, partial': nat, i: nat)
    requires Inv(g, m, partial, empty, full, l, pages) && i < |l.partial| && l.partial[i] in m
    requires g.pagesPerAlloc > 0 && g.itemCount <= 64 && Lone(g, m, l.partial[i])
    requires var a := l.partial[i];
      && (a != partial ==> m[a].prev in m && m' == Unlink(m, a) && partial' == partial)
      && (a == partial ==> m' == PopHead(m, a) && partial' == m[a].next)
    ensures Sweeping(g, m, m', partial', empty, full, Lists(Without(l.partial, i), l.empty, l.full), l.empty,
                     l.partial[i], PageOf(g, l.partial[i]), PageOf(g, l.partial[i]), false)
  {
    hide Inv, IsList, Sorted, Layout, Counted, Fits, PageOf, EmptyMask, Lone, Unlink, PopHead, Apart, Sweeping,
      SameContents;
    Parts(g, m, partial, empty, full, l, pages);
    var a := l.partial[i];
    TakenOffList(m, partial, l.partial, i, m', partial');
    ApartFrame(m, m', empty, l.empty, l.partial);
    ApartFrame(m, m', full, l.full, l.partial);
    StartSweep(g, m, m', partial, empty, full, l, pages, partial', i);
  }

  lemma TakenOffList(m: Headers, head: nat, s: seq<nat>, i: nat, m': Headers, head': nat)
    requires IsList(m, head, s) && i < |s| && s[i] in m
    requires s[i] != head ==> m[s[i]].prev in m && m' == Unlink(m, s[i]) && head' == head
    requires s[i] == head ==> m' == PopHead(m, head) && head' == m[s[i]].next
    ensures IsList(m', head', Without(s, i)) && SameContents(m, m')
    ensures forall x :: x in m && x !in s ==> x in m' && m'[x] == m[x]
  {
    if i > 0 {
      UnlinkList(m, head, s, i);
    } else {
      PopHeadList(m, head, s);
      assert Without(s, 0) == s[1..];
    }
  }

  lemma SweepBounds(g: Geometry, m0: Headers, m: Headers, partial: nat, empty: nat, full: nat,
                    l: Lists, cur: seq<nat>, slab: nat, page: nat, s: nat, found: bool)
    requires Sweeping(g, m0, m, partial, empty, full, l, cur, slab, page, s, found) && s != page + g.pagesPerAlloc
    ensures g.slabSize > 0 && s + g.slabSize <= page + g.pagesPerAlloc
  {
    SweepAddress(g, page, s);
  }

  lemma ItemOf(g: Geometry, m: Headers, partial: nat, empty: nat, full: nat, l: Lists, pages: set<nat>, addr: nat)
    requires Inv(g, m, partial, empty, full, l, pages) && IsLive(g, m, addr)
    ensures g.slabSize > 0 && g.itemSize > 0 && g.pagesPerAlloc > 0 && g.itemCount <= 64
    ensures SlotOf(g, addr) >= 0 && (SlabOf(g, addr), SlotOf(g, addr) as nat) in LiveItems(g, m)
  {
  }

  /** The alignment mask of slab_init leads from an item to its slab. */
  lemma MaskedSlab(g: Geometry, m: Headers, partial: nat, empty: nat, full: nat, l: Lists, pages: set<nat>, addr: nat)
    requires Inv(g, m, partial, empty, full, l, pages) && IsLive(g, m, addr) && addr < Pow2(64)
    ensures 0 < g.slabSize <= Pow2(64)
    ensures And(addr, Not(g.slabSize - 1, 64)) == SlabOf(g, addr)
  {
    hide And, Not, Pow2, IsList, Sorted, Counted, Used, SlotOf, ItemAddr;
    var a := SlabOf(g, addr);
    AlignDownFacts(addr, g.slabSize);
    AlignDownFacts(a, g.pagesPerAlloc);
    SlabAtLeast(a, g.slabSize);
    var k: nat :| g.slabSize == Pow2(k);
    AlignmentMask(addr, k, 64);
  }

  lemma SlabAtLeast(a: nat, d: nat)
    requires d > 0 && a > 0 && a % d == 0
    ensures a >= d
  {
  }

  lemma GiveBack(g: Geometry, m: Headers, m': Headers, a: nat, j: nat, v: nat)
    requires a in m && j in Used(m[a].slots, g.itemCount) && SlotsSet(m, m', a, v)
    requires Used(v, g.itemCount) == Used(m[a].slots, g.itemCount) - {j}
    ensures LiveItems(g, m') == LiveItems(g, m) - {(a, j)}
  {
    LiveRemoved(g, m, m', a, v, j);
  }

  /** A slab with further items stays partial. */
  lemma KeepsPartial(g: Geometry, m: Headers, partial: nat, empty: nat, full: nat, l: Lists, pages: set<nat>, a: nat,
      j: nat)
    requires Inv(g, m, partial, empty, full, l, pages) && (a, j) in LiveItems(g, m)
    requires a in m && m[a].slots != SLOTS_ALL_ZERO && Used(m[a].slots, g.itemCount) != {j}
    ensures var m' := SetSlots(m, a, Or(m[a].slots, Pow2(j)));
      && Inv(g, m', partial, empty, full, l, pages)
      && LiveItems(g, m') == LiveItems(g, m) - {(a, j)}
    ensures g.pagesPerAlloc > 0 && PageShared(g, LiveItems(g, m), a, j)
  {
    hide Inv, Sorted, Layout, Counted, IsList, Used, Masked, EmptyMask, Or, Pow2, Fits, LiveItems, PageShared, PageOf;
    LiveSlab(g, m, partial, empty, full, l, pages, a, j);
    var v := Or(m[a].slots, Pow2(j));
    SomeGivenBack(g, m[a].slots, j);
    SlabShared(g, m, a, j);
    StayPartial(g, m, partial, empty, full, l, pages, a, v);
    GiveBack(g, m, SetSlots(m, a, v), a, j, v);
  }

  lemma SomeGivenBack(g: Geometry, s: nat, j: nat)
    requires g.itemCount <= 64 && Masked(s, g.itemCount) && j in Used(s, g.itemCount) && Used(s, g.itemCount) != {j}
    ensures var v := Or(s, Pow2(j));
      && Masked(v, g.itemCount) && v != SLOTS_ALL_ZERO && v != EmptyMask(g.itemCount)
      && Used(v, g.itemCount) == Used(s, g.itemCount) - {j}
  {
    GiveSlot(s, g.itemCount, j);
    MaskExtremes(Or(s, Pow2(j)), g.itemCount);
  }

  lemma IndexOf(s: seq<nat>, a: nat) returns (i: nat)
    requires a in s
    ensures i < |s| && s[i] == a
  {
    i :| 0 <= i < |s| && s[i] == a;
  }

  /** The links a header in a list has. */
  lemma LinksOf(m: Headers, head: nat, s: seq<nat>, i: nat)
    requires IsList(m, head, s) && i < |s|
    ensures s[i] in m && head in m && head != NULL
    ensures s[i] != head ==> m[s[i]].prev in m && m[s[i]].prev != s[i] && m[s[i]].prev in s
    ensures m[s[i]].next != NULL ==> m[s[i]].next in m && m[s[i]].next != s[i] && m[s[i]].next in s
  {
  }

  predicate CanHang(m: Headers, a: nat, src: nat, dst: nat) {
    && a in m && src in m && (m[a].next != NULL ==> m[a].next in m && m[a].next != a)
    && (a != src ==> m[a].prev in m && m[a].prev != a)
    && (dst != NULL ==> dst in m && dst != a && dst != m[a].next && (a != src ==> dst != m[a].prev))
  }

  /** What the statements that move a header, head of its list or not, to the front of
      another list leave. */
  function Hung(m: Headers, a: nat, v: nat, src: nat, dst: nat): Headers
    requires CanHang(m, a, src, dst)
  {
    var m1 := SetSlots(m, a, v);
    var m2 := if a != src then SetPrev(Unlink(m1, a), a, NULL)
              else if m[a].next != NULL then SetPrev(m1, m[a].next, NULL)
              else m1;
    var m3 := SetNext(m2, a, dst);
    if dst != NULL then SetPrev(m3, dst, a) else m3
  }

  lemma MovedAny(m: Headers, a: nat, v: nat, src: nat, dst: nat)
    requires a in m && src in m && (m[a].next != NULL ==> m[a].next in m && m[a].next != a)
    requires a != src ==> m[a].prev in m && m[a].prev != a
    requires dst != NULL ==> dst in m && dst != a && dst != m[a].next && (a != src ==> dst != m[a].prev)
    ensures CanHang(m, a, src, dst) && CanTake(m, src, a)
    ensures Moved(m, a, v, src, dst) == Hung(m, a, v, src, dst)
  {
  }

  lemma InFull(g: Geometry, m: Headers, partial: nat, empty: nat, full: nat, l: Lists, pages: set<nat>, a: nat,
      j: nat) returns (i: nat)
    requires Inv(g, m, partial, empty, full, l, pages) && (a, j) in LiveItems(g, m) && a in m
    requires m[a].slots == SLOTS_ALL_ZERO
    ensures i < |l.full| && l.full[i] == a && g.pagesPerAlloc > 0
    ensures a != NULL && CanHang(m, a, full, partial)
    ensures var m' := Hung(m, a, Pow2(j), full, partial);
      && Inv(g, m', a, empty, HeadAfter(m, full, a), Lists([a] + l.partial, l.empty, Without(l.full, i)), pages)
      && LiveItems(g, m') == LiveItems(g, m) - {(a, j)}
    ensures PageShared(g, LiveItems(g, m), a, j)
  {
    hide *;
    Parts(g, m, partial, empty, full, l, pages);
    LiveSlab(g, m, partial, empty, full, l, pages, a, j);
    i := IndexOf(l.full, a);
    LinksOf(m, full, l.full, i);
    HeadApart(m, partial, l.partial, l.full, a);
    SlabShared(g, m, a, j);
    var v := Pow2(j);
    FirstGivenBack(g, m[a].slots, j);
    MovedAny(m, a, v, full, partial);
    FullToPartial(g, m, partial, empty, full, l, pages, i, v);
    GiveBack(g, m, Moved(m, a, v, full, partial), a, j, v);
  }

  /** The head of one list is none of the headers around a member of another. */
  lemma HeadApart(m: Headers, head: nat, s: seq<nat>, t: seq<nat>, a: nat)
    requires IsList(m, head, s) && Apart(s, t) && a in t
    ensures head != NULL ==> head in m && head !in t
    ensures head != a || head == NULL
  {
  }

  lemma FirstGivenBack(g: Geometry, s: nat, j: nat)
    requires g.itemCount <= 64 && s == SLOTS_ALL_ZERO && j in Used(s, g.itemCount) && Used(s, g.itemCount) != {j}
    requires Masked(s, g.itemCount)
    ensures Used(Pow2(j), g.itemCount) == Used(s, g.itemCount) - {j} && Masked(Pow2(j), g.itemCount)
    ensures Pow2(j) != SLOTS_ALL_ZERO && Pow2(j) != EmptyMask(g.itemCount)
  {
    GiveSlot(s, g.itemCount, j);
    MaskExtremes(Pow2(j), g.itemCount);
  }

  lemma InPartial(g: Geometry, m: Headers, partial: nat, empty: nat, full: nat, l: Lists, pages: set<nat>, a: nat,
      j: nat) returns (i: nat)
    requires Inv(g, m, partial, empty, full, l, pages) && (a, j) in LiveItems(g, m) && a in m && g.itemCount <= 64
    requires m[a].slots != SLOTS_ALL_ZERO && Used(m[a].slots, g.itemCount) == {j}
    requires Counter(m, a) in m && m[Counter(m, a)].refcount != 1
    ensures i < |l.partial| && l.partial[i] == a
    ensures a != NULL && CanHang(m, a, partial, empty)
    ensures var m1 := Hung(m, a, EmptyMask(g.itemCount), partial, empty);
      && a in m1 && Counter(m1, a) == Counter(m, a) && Counter(m, a) in m1 && m1[Counter(m, a)].refcount > 0
      && var m' := SetRefcount(m1, Counter(m, a), m1[Counter(m, a)].refcount - 1);
      && Inv(g, m', HeadAfter(m, partial, a), a, full, Lists(Without(l.partial, i), [a] + l.empty, l.full), pages)
      && LiveItems(g, m') == LiveItems(g, m) - {(a, j)}
  {
    hide *;
    Parts(g, m, partial, empty, full, l, pages);
    LiveSlab(g, m, partial, empty, full, l, pages, a, j);
    i := IndexOf(l.partial, a);
    LinksOf(m, partial, l.partial, i);
    HeadApart(m, empty, l.empty, l.partial, a);
    var v := EmptyMask(g.itemCount);
    LastGivenBack(g, m[a].slots, j);
    MovedAny(m, a, v, partial, empty);
    PartialToEmpty(g, m, partial, empty, full, l, pages, i);
    var m1 := Moved(m, a, v, partial, empty);
    GiveBack(g, m, SetRefcount(m1, Counter(m, a), m1[Counter(m, a)].refcount - 1), a, j, v);
  }

  lemma LastGivenBack(g: Geometry, s: nat, j: nat)
    requires 2 <= g.itemCount <= 64 && Used(s, g.itemCount) == {j}
    ensures Used(EmptyMask(g.itemCount), g.itemCount) == Used(s, g.itemCount) - {j}
  {
    InitialMaskUsed(g.itemCount);
    MaskExtremes(EmptyMask(g.itemCount), g.itemCount);
  }

  /** Whether the page of the last item is released. */
  lemma LastOnPage(g: Geometry, m: Headers, partial: nat, empty: nat, full: nat, l: Lists, pages: set<nat>, a: nat,
      j: nat)
    requires Inv(g, m, partial, empty, full, l, pages) && (a, j) in LiveItems(g, m) && a in m
    requires Used(m[a].slots, g.itemCount) == {j}
    ensures g.pagesPerAlloc > 0 && Counter(m, a) == PageOf(g, a) && PageOf(g, a) in m
    ensures m[PageOf(g, a)].refcount == 1 <==> !PageShared(g, LiveItems(g, m), a, j)
  {
    LiveSlab(g, m, partial, empty, full, l, pages, a, j);
    CountDecides(g, m, pages, a, j);
  }

  lemma CounterIn(g: Geometry, m: Headers, a: nat, pages: set<nat>)
    requires Fits(g) && Layout(g, m, pages) && a in m
    requires exists partial, empty, full, l :: Inv(g, m, partial, empty, full, l, pages)
    ensures Counter(m, a) in m
  {
    CounterIsHeader(g, m, pages, a);
  }

  lemma BothEmpty(g: Geometry, m: Headers, full: nat, l: Lists, pages: set<nat>)
    requires Inv(g, m, NULL, NULL, full, l, pages)
    ensures Fits(g) && Layout(g, m, pages) && g.itemCount <= 64 && g.slabSize > 0 && g.pagesPerAlloc > 0
    ensures l.partial == [] && l.empty == []
  {
  }

  lemma AddressEnd(g: Geometry, p: nat, k: nat, n: nat)
    requires Fits(g) && k <= n
    ensures Nth(g, p, k) == Nth(g, p, n) <==> k == n
  {
  }

  lemma FreshItem(g: Geometry, m: Headers, m': Headers, p: nat, pages: set<nat>)
    requires Fits(g) && Layout(g, m', pages) && p in m'
    requires p !in m && LiveItems(g, m') == LiveItems(g, m) + {(p, 0)}
    ensures Handed(g, p + DATA_OFFSET, p, LiveItems(g, m), LiveItems(g, m'))
  {
    AddressRoundTrip(g, p, 0);
    assert ItemAddr(g, p, 0) == p + DATA_OFFSET;
  }

  lemma NotEmptyAfterTake(g: Geometry, s: nat, v: nat, j: nat)
    requires g.itemCount <= 64 && Masked(v, g.itemCount)
    requires Used(v, g.itemCount) == Used(s, g.itemCount) + {j}
    ensures v != EmptyMask(g.itemCount)
  {
    MaskExtremes(v, g.itemCount);
    assert j in Used(v, g.itemCount);
  }
}
