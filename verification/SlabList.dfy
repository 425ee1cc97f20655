/** The doubly-linked lists threaded through slab headers, and what relinking does to them. */
module SlabList {

  const NULL: nat := 0

  /** struct slab_header; prev, next and page are addresses of headers. */
  datatype Header = Header(prev: nat, next: nat, slots: nat, refcount: nat, page: nat)

  type Headers = map<nat, Header>

  ghost predicate NoDup<T>(s: seq<T>) {
    forall i, j :: 0 <= i < j < |s| ==> s[i] != s[j]
  }

  /** The address at position i, or NULL off either end. */
  function At(s: seq<nat>, i: int): nat {
    if 0 <= i < |s| then s[i] else NULL
  }

  ghost predicate Linked(m: Headers, s: seq<nat>) {
    forall i :: 0 <= i < |s| ==> s[i] in m && m[s[i]].prev == At(s, i - 1) && m[s[i]].next == At(s, i + 1)
  }

  /** `s` is the list that starts at `head`. */
  ghost predicate IsList(m: Headers, head: nat, s: seq<nat>) {
    head == At(s, 0) && NULL !in s && NoDup(s) && Linked(m, s)
  }

  /** Two memories agree on the links of the members of `s`. */
  ghost predicate SameLinks(m: Headers, m': Headers, s: seq<nat>) {
    forall a :: a in s && a in m ==> a in m' && m'[a].prev == m[a].prev && m'[a].next == m[a].next
  }

  /** Everything but the links is the same. */
  ghost predicate SameContents(m: Headers, m': Headers) {
    && m.Keys == m'.Keys
    && forall a :: a in m ==> m'[a].slots == m[a].slots && m'[a].refcount == m[a].refcount && m'[a].page == m[a].page
  }

  lemma ListFrame(m: Headers, m': Headers, head: nat, s: seq<nat>)
    requires IsList(m, head, s) && SameLinks(m, m', s)
    ensures IsList(m', head, s)
  {
  }

  function SetPrev(m: Headers, a: nat, v: nat): Headers
    requires a in m
  {
    m[a := m[a].(prev := v)]
  }

  function SetNext(m: Headers, a: nat, v: nat): Headers
    requires a in m
  {
    m[a := m[a].(next := v)]
  }

  /** if ((head = head->next) != NULL) head->prev = NULL */
  function PopHead(m: Headers, head: nat): Headers
    requires head in m
  {
    var next := m[head].next;
    if next != NULL && next in m then SetPrev(m, next, NULL) else m
  }

  /** x->next = head; if (head != NULL) head->prev = x */
  function PushHead(m: Headers, head: nat, x: nat): Headers
    requires x in m
  {
    var m1 := SetNext(m, x, head);
    if head != NULL && head in m1 then SetPrev(m1, head, x) else m1
  }

  /** if ((x->prev->next = x->next) != NULL) x->next->prev = x->prev */
  function Unlink(m: Headers, x: nat): Headers
    requires x in m && m[x].prev in m
  {
    var m1 := SetNext(m, m[x].prev, m[x].next);
    var next := m1[x].next;
    if next != NULL && next in m1 then SetPrev(m1, next, m1[x].prev) else m1
  }

  function Without(s: seq<nat>, i: nat): seq<nat>
    requires i < |s|
  {
    s[..i] + s[i + 1..]
  }

  /** t is s with the member x taken out. */
  ghost predicate Removed<T>(s: seq<T>, x: T, t: seq<T>) {
    exists i :: 0 <= i < |s| && s[i] == x && t == s[..i] + s[i + 1..]
  }

  lemma RemovedAt(s: seq<nat>, i: nat)
    requires i < |s|
    ensures Removed(s, s[i], Without(s, i))
    ensures i == 0 ==> Without(s, i) == s[1..]
  {
  }

  ghost predicate Before<T>(s: seq<T>, x: T, y: T) {
    exists i, j :: 0 <= i < j < |s| && s[i] == x && s[j] == y
  }

  /** The members of t come in the order they have in s. */
  ghost predicate InOrder<T>(s: seq<T>, t: seq<T>) {
    forall i, j :: 0 <= i < j < |t| ==> Before(s, t[i], t[j])
  }

  lemma InOrderSelf<T>(s: seq<T>)
    ensures InOrder(s, s)
  {
  }

  lemma InOrderWithout(s: seq<nat>, t: seq<nat>, k: nat)
    requires InOrder(s, t) && k < |t|
    ensures InOrder(s, Without(t, k))
  {
    hide Before;
    var u := Without(t, k);
    forall i, j | 0 <= i < j < |u|
      ensures Before(s, u[i], u[j])
    {
      var x, y := if i < k then i else i + 1, if j < k then j else j + 1;
      assert u[i] == t[x] && u[j] == t[y];
    }
  }

  lemma WithoutMembers(s: seq<nat>, i: nat)
    requires i < |s| && NoDup(s)
    ensures forall a :: a in Without(s, i) <==> a in s && a != s[i]
    ensures NoDup(Without(s, i))
    ensures |Without(s, i)| == |s| - 1
  {
  }

  lemma PopHeadList(m: Headers, head: nat, s: seq<nat>)
    requires IsList(m, head, s) && s != []
    ensures head in m && (m[head].next != NULL ==> m[head].next in m)
    ensures IsList(PopHead(m, head), m[head].next, s[1..])
    ensures SameContents(m, PopHead(m, head))
    ensures forall a :: a in m && a !in s ==> PopHead(m, head)[a] == m[a]
    ensures PopHead(m, head)[head] == m[head]
  {
  }

  lemma PushHeadList(m: Headers, head: nat, s: seq<nat>, x: nat)
    requires IsList(m, head, s) && x in m && x != NULL && x !in s && m[x].prev == NULL
    ensures head != NULL ==> head in m
    ensures IsList(PushHead(m, head, x), x, [x] + s)
    ensures SameContents(m, PushHead(m, head, x))
    ensures forall a :: a in m && a !in s && a != x ==> PushHead(m, head, x)[a] == m[a]
  {
    var m' := PushHead(m, head, x);
    var t := [x] + s;
    if s != [] {
      assert s[0] in m;
    }
    forall i | 0 <= i < |t|
      ensures t[i] in m' && m'[t[i]].prev == At(t, i - 1) && m'[t[i]].next == At(t, i + 1)
    {
      if i > 0 {
        assert t[i] == s[i - 1];
      }
    }
  }

  lemma UnlinkEffect(m: Headers, x: nat)
    requires x in m && m[x].prev in m && m[x].prev != x && m[x].next != x
    requires m[x].next != NULL ==> m[x].next in m && m[x].next != m[x].prev
    ensures var m', p, n := Unlink(m, x), m[x].prev, m[x].next;
      && SameContents(m, m')
      && forall a :: a in m ==>
           && m'[a].next == (if a == p then n else m[a].next)
           && m'[a].prev == (if n != NULL && a == n then p else m[a].prev)
  {
  }

  lemma UnlinkedNeighbours(s: seq<nat>, i: nat, j: nat)
    requires NULL !in s && NoDup(s) && 0 < i < |s| && j < |s| - 1
    ensures var t, k := Without(s, i), if j < i then j else j + 1;
      && t[j] == s[k]
      && At(t, j + 1) == (if s[k] == s[i - 1] then At(s, i + 1) else At(s, k + 1))
      && At(t, j - 1) == (if i + 1 < |s| && s[k] == s[i + 1] then s[i - 1] else At(s, k - 1))
  {
  }

  lemma UnlinkList(m: Headers, head: nat, s: seq<nat>, i: nat)
    requires IsList(m, head, s) && 0 < i < |s|
    ensures s[i] in m && m[s[i]].prev == s[i - 1] && s[i - 1] in m
    ensures m[s[i]].next == At(s, i + 1) && (i + 1 < |s| ==> s[i + 1] in m)
    ensures IsList(Unlink(m, s[i]), head, Without(s, i))
    ensures SameContents(m, Unlink(m, s[i]))
    ensures forall a :: a in m && a !in s ==> Unlink(m, s[i])[a] == m[a]
    ensures Unlink(m, s[i])[s[i]] == m[s[i]]
  {
    assert s[i] in m && s[i - 1] in m;
    if i + 1 < |s| {
      assert s[i + 1] in m;
    }
    var m' := Unlink(m, s[i]);
    var t := Without(s, i);
    UnlinkEffect(m, s[i]);
    hide Unlink;
    WithoutMembers(s, i);
    forall j | 0 <= j < |t|
      ensures t[j] in m' && m'[t[j]].prev == At(t, j - 1) && m'[t[j]].next == At(t, j + 1)
    {
      UnlinkedNeighbours(s, i, j);
      hide Without;
      assert s[if j < i then j else j + 1] in m;
    }
  }

  // ----- moving a header from one list to the front of another -----

  ghost predicate Apart<T>(s: seq<T>, t: seq<T>) {
    forall a :: a in s ==> a !in t
  }

  /** Taking `x`, the head or not, out of the list at `head`. */
  function TakeOut(m: Headers, head: nat, x: nat): Headers
    requires x in m && head in m && (x != head ==> m[x].prev in m)
  {
    if x == head then PopHead(m, head) else SetPrev(Unlink(m, x), x, NULL)
  }

  function HeadAfter(m: Headers, head: nat, x: nat): nat
    requires x in m
  {
    if x == head then m[x].next else head
  }

  lemma TakeOutList(m: Headers, head: nat, s: seq<nat>, i: nat)
    requires IsList(m, head, s) && i < |s|
    ensures s[i] in m && head in m && (s[i] != head ==> m[s[i]].prev in m)
    ensures IsList(TakeOut(m, head, s[i]), HeadAfter(m, head, s[i]), Without(s, i))
    ensures SameContents(m, TakeOut(m, head, s[i]))
    ensures forall a :: a in m && a !in s ==> TakeOut(m, head, s[i])[a] == m[a]
    ensures TakeOut(m, head, s[i])[s[i]].prev == NULL
    ensures head != s[i] <==> i > 0
  {
    assert s[i] in m && s[0] in m;
    WithoutMembers(s, i);
    if i == 0 {
      PopHeadList(m, head, s);
      assert Without(s, 0) == s[1..];
    } else {
      UnlinkList(m, head, s, i);
      ListFrame(Unlink(m, s[i]), TakeOut(m, head, s[i]), head, Without(s, i));
    }
  }

  /** A list whose members lie outside the touched headers stays as it is. */
  lemma ApartFrame(m: Headers, m': Headers, head: nat, s: seq<nat>, touched: seq<nat>)
    requires IsList(m, head, s) && SameContents(m, m') && Apart(s, touched)
    requires forall a :: a in m && a !in touched ==> m'[a] == m[a]
    ensures IsList(m', head, s)
  {
    ListFrame(m, m', head, s);
  }

  /** The source list loses the header, the destination gains it in front, and the third
      list is as before. */
  lemma MoveToFront(m: Headers, head: nat, s: seq<nat>, i: nat, dst: nat, d: seq<nat>, other: nat, o: seq<nat>)
    requires IsList(m, head, s) && IsList(m, dst, d) && IsList(m, other, o)
    requires Apart(d, s) && Apart(o, s) && Apart(o, d) && i < |s|
    ensures s[i] in m && head in m && (s[i] != head ==> m[s[i]].prev in m)
    ensures var m' := PushHead(TakeOut(m, head, s[i]), dst, s[i]);
      && IsList(m', HeadAfter(m, head, s[i]), Without(s, i))
      && IsList(m', s[i], [s[i]] + d)
      && IsList(m', other, o)
      && SameContents(m, m')
  {
    var x := s[i];
    var w := Without(s, i);
    assert x in s && NULL !in s && NoDup(s);
    TakeOutList(m, head, s, i);
    WithoutMembers(s, i);
    var m1 := TakeOut(m, head, x);
    ApartFrame(m, m1, dst, d, s);
    ApartFrame(m, m1, other, o, s);
    PushHeadList(m1, dst, d, x);
    var m2 := PushHead(m1, dst, x);
    hide PushHead, TakeOut, IsList, Without, NoDup;
    var touched := [x] + d;
    ApartFrame(m1, m2, HeadAfter(m, head, x), w, touched);
    ApartFrame(m1, m2, other, o, touched);
  }
}
