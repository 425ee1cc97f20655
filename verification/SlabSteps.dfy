/** The state changes of slab_alloc and slab_free, each shown to keep the invariant. */
module SlabSteps {
  import opened SlotMask
  import opened SlabSizing
  import opened SlabList
  import opened SlabInv

  function SetSlots(m: Headers, a: nat, v: nat): Headers
    requires a in m
  {
    m[a := m[a].(slots := v)]
  }

  function SetRefcount(m: Headers, a: nat, v: nat): Headers
    requires a in m
  {
    m[a := m[a].(refcount := v)]
  }

  /** The header that counts for slab `a`: its own, or the one its page field points to. */
  function Counter(m: Headers, a: nat): nat
    requires a in m
  {
    if m[a].refcount != 0 then a else m[a].page
  }

  lemma CounterIsHeader(g: Geometry, m: Headers, pages: set<nat>, a: nat)
    requires Fits(g) && Layout(g, m, pages) && Counted(g, m, pages) && a in m
    ensures g.pagesPerAlloc > 0
    ensures Counter(m, a) == PageOf(g, a) && PageOf(g, a) in m
    ensures m[PageOf(g, a)].refcount >= 1
  {
    PageHeader(g, m, pages, a);
  }

  /** Lists that differ in the place of slab `a` only, which is the one its mask demands. */
  ghost predicate Rehung(g: Geometry, l: Lists, l': Lists, a: nat, v: nat)
    requires g.itemCount <= 64
  {
    && (forall x :: x != a ==>
          && (x in l'.partial <==> x in l.partial)
          && (x in l'.empty <==> x in l.empty)
          && (x in l'.full <==> x in l.full))
    && (a in l'.full <==> v == SLOTS_ALL_ZERO)
    && (a in l'.empty <==> v == EmptyMask(g.itemCount))
    && (a in l'.partial <==> v != SLOTS_ALL_ZERO && v != EmptyMask(g.itemCount))
  }

  lemma SortedAgain(g: Geometry, m: Headers, m': Headers, l: Lists, l': Lists, a: nat, v: nat)
    requires Fits(g) && Sorted(g, m, l) && a in m && SlotsSet(m, m', a, v)
    requires Masked(v, g.itemCount) && Rehung(g, l, l', a, v)
    ensures Sorted(g, m', l')
  {
  }

  /** The pieces of the invariant the steps below work with. */
  lemma Parts(g: Geometry, m: Headers, partial: nat, empty: nat, full: nat, l: Lists, pages: set<nat>)
    requires Inv(g, m, partial, empty, full, l, pages)
    ensures Fits(g) && Sorted(g, m, l) && Layout(g, m, pages) && Counted(g, m, pages)
    ensures Listed(m, partial, empty, full, l)
    ensures IsList(m, partial, l.partial) && IsList(m, empty, l.empty) && IsList(m, full, l.full)
    ensures Apart(l.partial, l.empty) && Apart(l.partial, l.full) && Apart(l.empty, l.full)
    ensures Apart(l.empty, l.partial) && Apart(l.full, l.partial) && Apart(l.full, l.empty)
    ensures 2 <= g.itemCount <= 64 && g.pagesPerAlloc > 0
    ensures EmptyMask(g.itemCount) != SLOTS_ALL_ZERO
    ensures Masked(SLOTS_ALL_ZERO, g.itemCount) && Masked(EmptyMask(g.itemCount), g.itemCount)
    ensures forall a :: a in l.partial ==>
              a in m && m[a].slots != SLOTS_ALL_ZERO && m[a].slots != EmptyMask(g.itemCount)
    ensures forall a :: a in l.empty ==> a in m && m[a].slots == EmptyMask(g.itemCount)
    ensures forall a :: a in l.full ==> a in m && m[a].slots == SLOTS_ALL_ZERO
  {
    InitialMaskUsed(g.itemCount);
    MaskExtremes(EmptyMask(g.itemCount), g.itemCount);
    assert 0 !in Used(EmptyMask(g.itemCount), g.itemCount);
    ZeroMasked(g.itemCount);
  }

  lemma ZeroMasked(n: nat)
    ensures Masked(SLOTS_ALL_ZERO, n)
  {
    forall i: nat
      ensures !Words.Bit(0, i)
    {
      Words.ZeroBit(i);
    }
  }

  lemma HeadIsFirst(m: Headers, head: nat, s: seq<nat>)
    requires IsList(m, head, s)
    ensures s != [] ==> head == s[0] && head in s && head != NULL
    ensures s == [] <==> head == NULL
  {
  }

  /** A list survives any change that leaves links alone. */
  lemma ListedFrame(m: Headers, m': Headers, partial: nat, empty: nat, full: nat, l: Lists)
    requires Listed(m, partial, empty, full, l)
    requires m'.Keys == m.Keys && forall a :: a in m ==> m'[a].prev == m[a].prev && m'[a].next == m[a].next
    ensures Listed(m', partial, empty, full, l)
  {
  }

  /** A partial slab that stays partial. */
  lemma StayPartial(g: Geometry, m: Headers, partial: nat, empty: nat, full: nat, l: Lists, pages: set<nat>, a: nat,
      v: nat)
    requires Inv(g, m, partial, empty, full, l, pages) && a in l.partial
    requires Masked(v, g.itemCount) && v != SLOTS_ALL_ZERO && v != EmptyMask(g.itemCount)
    ensures a in m && Inv(g, SetSlots(m, a, v), partial, empty, full, l, pages)
  {
    hide Listed, Layout, Counted, Masked, EmptyMask, Fits;
    var m' := SetSlots(m, a, v);
    ListedFrame(m, m', partial, empty, full, l);
    SortedAgain(g, m, m', l, l, a, v);
    LayoutKept(g, m, m', pages);
    CountsKept(g, m, m', pages, a, v);
  }

  ghost predicate CanTake(m: Headers, head: nat, a: nat) {
    a in m && head in m && (a != head ==> m[a].prev in m)
  }

  /** Slab `a` gets mask `v` and moves from the list at `src` to the front of the one at `dst`. */
  function Moved(m: Headers, a: nat, v: nat, src: nat, dst: nat): Headers
    requires CanTake(m, src, a)
  {
    var m1 := SetSlots(m, a, v);
    PushHead(TakeOut(m1, src, a), dst, a)
  }

  lemma MovedLists(m: Headers, v: nat, src: nat, s: seq<nat>, i: nat, dst: nat, d: seq<nat>, other: nat, o: seq<nat>)
    requires IsList(m, src, s) && IsList(m, dst, d) && IsList(m, other, o)
    requires Apart(d, s) && Apart(o, s) && Apart(o, d) && i < |s|
    ensures CanTake(m, src, s[i])
    ensures var m' := Moved(m, s[i], v, src, dst);
      && IsList(m', HeadAfter(m, src, s[i]), Without(s, i))
      && IsList(m', s[i], [s[i]] + d)
      && IsList(m', other, o)
      && SlotsSet(m, m', s[i], v)
      && RefcountsSame(m, m')
    ensures Lost(s, Without(s, i), s[i]) && Gained(d, [s[i]] + d, s[i])
  {
    assert s[i] in s && s[0] in s && s[i] in m;
    var m1 := SetSlots(m, s[i], v);
    ListFrame(m, m1, src, s);
    ListFrame(m, m1, dst, d);
    ListFrame(m, m1, other, o);
    MoveToFront(m1, src, s, i, dst, d, other, o);
    WithoutMembers(s, i);
  }

  /** A list move whose outcome `l'` is known keeps the invariant, given the counts. */
  lemma MoveKeepsInv(g: Geometry, m: Headers, m': Headers, l: Lists, pages: set<nat>,
                     partial': nat, empty': nat, full': nat, l': Lists, a: nat, v: nat)
    requires Fits(g) && Sorted(g, m, l) && Layout(g, m, pages) && a in m
    requires SlotsSet(m, m', a, v) && Masked(v, g.itemCount) && Rehung(g, l, l', a, v)
    requires Listed(m', partial', empty', full', l') && Counted(g, m', pages)
    ensures Inv(g, m', partial', empty', full', l', pages)
  {
    SortedAgain(g, m, m', l, l', a, v);
    LayoutKept(g, m, m', pages);
  }

  /** The last free slot of the first partial slab is taken. */
  lemma PartialToFull(g: Geometry, m: Headers, partial: nat, empty: nat, full: nat, l: Lists, pages: set<nat>)
    requires Inv(g, m, partial, empty, full, l, pages) && l.partial != []
    ensures CanTake(m, partial, partial)
    ensures Inv(g, Moved(m, partial, SLOTS_ALL_ZERO, partial, full), HeadAfter(m, partial, partial), empty, partial,
                Lists(Without(l.partial, 0), l.empty, [partial] + l.full), pages)
  {
    hide *;
    Parts(g, m, partial, empty, full, l, pages);
    HeadIsFirst(m, partial, l.partial);
    MovedLists(m, SLOTS_ALL_ZERO, partial, l.partial, 0, full, l.full, empty, l.empty);
    var m' := Moved(m, partial, SLOTS_ALL_ZERO, partial, full);
    CountsStay(g, m, m', pages, partial, SLOTS_ALL_ZERO);
    var l' := Lists(Without(l.partial, 0), l.empty, [partial] + l.full);
    RehungPF(g, l, l', partial);
    AreListed(m', HeadAfter(m, partial, partial), empty, partial, l');
    MoveKeepsInv(g, m, m', l, pages, HeadAfter(m, partial, partial), empty, partial, l', partial, SLOTS_ALL_ZERO);
  }

  lemma AreListed(m: Headers, partial: nat, empty: nat, full: nat, l: Lists)
    requires IsList(m, partial, l.partial) && IsList(m, empty, l.empty) && IsList(m, full, l.full)
    ensures Listed(m, partial, empty, full, l)
  {
  }

  ghost predicate RefcountsSame(m: Headers, m': Headers) {
    m.Keys == m'.Keys && forall x :: x in m ==> m'[x].refcount == m[x].refcount
  }

  lemma CountsStay(g: Geometry, m: Headers, m': Headers, pages: set<nat>, a: nat, v: nat)
    requires Fits(g) && Counted(g, m, pages) && a in m && SlotsSet(m, m', a, v) && RefcountsSame(m, m')
    requires m[a].slots != EmptyMask(g.itemCount) && v != EmptyMask(g.itemCount)
    ensures Counted(g, m', pages)
  {
    CountsKept(g, m, m', pages, a, v);
  }

  /** `t` is `s` without `a`. */
  ghost predicate Lost(s: seq<nat>, t: seq<nat>, a: nat) {
    forall x :: x in t <==> x in s && x != a
  }

  /** `t` is `s` with `a`. */
  ghost predicate Gained(s: seq<nat>, t: seq<nat>, a: nat) {
    forall x :: x in t <==> x in s || x == a
  }

  lemma RehungPF(g: Geometry, l: Lists, l': Lists, a: nat)
    requires g.itemCount <= 64 && EmptyMask(g.itemCount) != SLOTS_ALL_ZERO && a !in l.empty
    requires Lost(l.partial, l'.partial, a) && Gained(l.full, l'.full, a) && l'.empty == l.empty
    ensures Rehung(g, l, l', a, SLOTS_ALL_ZERO)
  {
  }

  lemma RehungFP(g: Geometry, l: Lists, l': Lists, a: nat, v: nat)
    requires g.itemCount <= 64 && a !in l.empty && v != SLOTS_ALL_ZERO && v != EmptyMask(g.itemCount)
    requires Lost(l.full, l'.full, a) && Gained(l.partial, l'.partial, a) && l'.empty == l.empty
    ensures Rehung(g, l, l', a, v)
  {
  }

  lemma RehungEP(g: Geometry, l: Lists, l': Lists, a: nat, v: nat)
    requires g.itemCount <= 64 && a !in l.full && v != SLOTS_ALL_ZERO && v != EmptyMask(g.itemCount)
    requires Lost(l.empty, l'.empty, a) && Gained(l.partial, l'.partial, a) && l'.full == l.full
    ensures Rehung(g, l, l', a, v)
  {
  }

  lemma RehungPE(g: Geometry, l: Lists, l': Lists, a: nat)
    requires g.itemCount <= 64 && EmptyMask(g.itemCount) != SLOTS_ALL_ZERO && a !in l.full
    requires Lost(l.partial, l'.partial, a) && Gained(l.empty, l'.empty, a) && l'.full == l.full
    ensures Rehung(g, l, l', a, EmptyMask(g.itemCount))
  {
  }

  /** A slot of a full slab is given back. */
  lemma FullToPartial(g: Geometry, m: Headers, partial: nat, empty: nat, full: nat, l: Lists, pages: set<nat>, i: nat,
      v: nat)
    requires Inv(g, m, partial, empty, full, l, pages) && i < |l.full|
    requires Masked(v, g.itemCount) && v != SLOTS_ALL_ZERO && v != EmptyMask(g.itemCount)
    ensures CanTake(m, full, l.full[i])
    ensures Inv(g, Moved(m, l.full[i], v, full, partial), l.full[i], empty, HeadAfter(m, full, l.full[i]),
                Lists([l.full[i]] + l.partial, l.empty, Without(l.full, i)), pages)
    ensures SlotsSet(m, Moved(m, l.full[i], v, full, partial), l.full[i], v)
  {
    var a := l.full[i];
    hide *;
    Parts(g, m, partial, empty, full, l, pages);
    assert a in l.full && a !in l.empty by { NotInBoth(l.full, l.empty, i); }
    MovedLists(m, v, full, l.full, i, partial, l.partial, empty, l.empty);
    var m' := Moved(m, a, v, full, partial);
    CountsStay(g, m, m', pages, a, v);
    var l' := Lists([a] + l.partial, l.empty, Without(l.full, i));
    RehungFP(g, l, l', a, v);
    AreListed(m', a, empty, HeadAfter(m, full, a), l');
    MoveKeepsInv(g, m, m', l, pages, a, empty, HeadAfter(m, full, a), l', a, v);
  }

  lemma NotInBoth(s: seq<nat>, t: seq<nat>, i: nat)
    requires Apart(s, t) && i < |s|
    ensures s[i] in s && s[i] !in t
  {
  }

  /** Changing one reference count leaves the lists alone. */
  lemma RefcountFrame(m: Headers, h: nat, n: nat, partial: nat, empty: nat, full: nat, l: Lists)
    requires h in m && Listed(m, partial, empty, full, l)
    ensures Listed(SetRefcount(m, h, n), partial, empty, full, l)
  {
    ListedFrame(m, SetRefcount(m, h, n), partial, empty, full, l);
  }

  lemma RecountEffect(m: Headers, m1: Headers, a: nat, v: nat, h: nat, n: nat)
    requires a in m && SlotsSet(m, m1, a, v) && RefcountsSame(m, m1) && h in m
    ensures h in m1 && m.Keys == m1.Keys
    ensures var m2 := SetRefcount(m1, h, n);
      && SlotsSet(m, m2, a, v)
      && forall x :: x in m ==> m2[x].refcount == (if x == h then n else m[x].refcount)
    ensures Counter(m1, a) == Counter(m, a) && m1[h].refcount == m[h].refcount
  {
  }

  /** Counting a slab that has just become non-empty. */
  lemma RecountUp(g: Geometry, m: Headers, m1: Headers, pages: set<nat>, a: nat, v: nat)
    requires Fits(g) && Layout(g, m, pages) && Counted(g, m, pages) && a in m && g.itemCount <= 64
    requires SlotsSet(m, m1, a, v) && RefcountsSame(m, m1)
    requires m[a].slots == EmptyMask(g.itemCount) && v != EmptyMask(g.itemCount)
    ensures Counter(m1, a) == Counter(m, a) && Counter(m, a) in m1
    ensures var m2 := SetRefcount(m1, Counter(m, a), m1[Counter(m, a)].refcount + 1);
      SlotsSet(m, m2, a, v) && Counted(g, m2, pages)
  {
    hide *;
    CounterIsHeader(g, m, pages, a);
    var h := Counter(m, a);
    RecountEffect(m, m1, a, v, h, m[h].refcount + 1);
    InKeys(m, m1, h, a, v);
    assert m1[h].refcount == m[h].refcount;
    CountsUp(g, m, SetRefcount(m1, h, m[h].refcount + 1), pages, a, v);
  }

  /** Discounting a slab that has just become empty. */
  lemma RecountDown(g: Geometry, m: Headers, m1: Headers, pages: set<nat>, a: nat)
    requires Fits(g) && Layout(g, m, pages) && Counted(g, m, pages) && a in m && g.itemCount <= 64
    requires SlotsSet(m, m1, a, EmptyMask(g.itemCount)) && RefcountsSame(m, m1)
    requires m[a].slots != EmptyMask(g.itemCount)
    requires Counter(m, a) in m && m[Counter(m, a)].refcount != 1
    ensures Counter(m1, a) == Counter(m, a) && Counter(m, a) in m1 && m1[Counter(m, a)].refcount > 0
    ensures var m2 := SetRefcount(m1, Counter(m, a), m1[Counter(m, a)].refcount - 1);
      SlotsSet(m, m2, a, EmptyMask(g.itemCount)) && Counted(g, m2, pages)
  {
    hide *;
    CounterIsHeader(g, m, pages, a);
    var h := Counter(m, a);
    RecountEffect(m, m1, a, EmptyMask(g.itemCount), h, m[h].refcount - 1);
    CountsDown(g, m, SetRefcount(m1, h, m[h].refcount - 1), pages, a);
  }

  /** The first empty slab becomes the only partial one. */
  lemma EmptyToPartial(g: Geometry, m: Headers, empty: nat, full: nat, l: Lists, pages: set<nat>)
    requires Inv(g, m, NULL, empty, full, l, pages) && l.partial == [] && l.empty != [] && g.itemCount <= 64
    ensures CanTake(m, empty, empty)
    ensures var m1 := Moved(m, empty, InitialMask(g.itemCount), empty, NULL);
      && empty in m1 && Counter(m1, empty) == Counter(m, empty) && Counter(m, empty) in m1
      && Inv(g, SetRefcount(m1, Counter(m, empty), m1[Counter(m, empty)].refcount + 1),
             empty, HeadAfter(m, empty, empty), full, Lists([empty] + l.partial, Without(l.empty, 0), l.full), pages)
  {
    hide *;
    Parts(g, m, NULL, empty, full, l, pages);
    InitialMaskUsed(g.itemCount);
    var v := InitialMask(g.itemCount);
    HeadIsFirst(m, empty, l.empty);
    NotInBoth(l.empty, l.full, 0);
    MovedLists(m, v, empty, l.empty, 0, NULL, l.partial, full, l.full);
    var m1 := Moved(m, empty, v, empty, NULL);
    InKeys(m, m1, empty, empty, v);
    RecountUp(g, m, m1, pages, empty, v);
    var h := Counter(m, empty);
    var l' := Lists([empty] + l.partial, Without(l.empty, 0), l.full);
    var e := HeadAfter(m, empty, empty);
    AreListed(m1, empty, e, full, l');
    RefcountFrame(m1, h, m1[h].refcount + 1, empty, e, full, l');
    RehungEP(g, l, l', empty, v);
    MoveKeepsInv(g, m, SetRefcount(m1, h, m1[h].refcount + 1), l, pages, empty, e, full, l', empty, v);
  }

  lemma InKeys(m: Headers, m1: Headers, x: nat, a: nat, v: nat)
    requires SlotsSet(m, m1, a, v) && x in m
    ensures x in m1
  {
  }

  /** The last used slot of a slab is given back while its page stays in use. */
  lemma PartialToEmpty(g: Geometry, m: Headers, partial: nat, empty: nat, full: nat, l: Lists, pages: set<nat>, i: nat)
    requires Inv(g, m, partial, empty, full, l, pages) && i < |l.partial| && g.itemCount <= 64
    requires l.partial[i] in m && Counter(m, l.partial[i]) in m && m[Counter(m, l.partial[i])].refcount != 1
    ensures CanTake(m, partial, l.partial[i])
    ensures var a := l.partial[i];
      var m1 := Moved(m, a, EmptyMask(g.itemCount), partial, empty);
      && a in m1 && Counter(m1, a) == Counter(m, a) && Counter(m, a) in m1 && m1[Counter(m, a)].refcount > 0
      && Inv(g, SetRefcount(m1, Counter(m, a), m1[Counter(m, a)].refcount - 1), HeadAfter(m, partial, a), a, full,
             Lists(Without(l.partial, i), [a] + l.empty, l.full), pages)
      && SlotsSet(m, SetRefcount(m1, Counter(m, a), m1[Counter(m, a)].refcount - 1), a, EmptyMask(g.itemCount))
  {
    hide *;
    var a := l.partial[i];
    Parts(g, m, partial, empty, full, l, pages);
    var v := EmptyMask(g.itemCount);
    NotInBoth(l.partial, l.full, i);
    MovedLists(m, v, partial, l.partial, i, empty, l.empty, full, l.full);
    var m1 := Moved(m, a, v, partial, empty);
    InKeys(m, m1, a, a, v);
    RecountDown(g, m, m1, pages, a);
    var h := Counter(m, a);
    var l' := Lists(Without(l.partial, i), [a] + l.empty, l.full);
    var p := HeadAfter(m, partial, a);
    AreListed(m1, p, a, full, l');
    RefcountFrame(m1, h, m1[h].refcount - 1, p, a, full, l');
    RehungPE(g, l, l', a);
    MoveKeepsInv(g, m, SetRefcount(m1, h, m1[h].refcount - 1), l, pages, p, a, full, l', a, v);
  }
}
