/** The hint lists: which hint getFreeLocation follows, what it leaves of the lists, and which
    hints a release adds. A hint is a position; it may be stale, so what counts is the free run
    around it at the time it is looked at. */
module NvHints {
  import opened NvHeader
  import opened NvHeap
  import opened NvInv
  import opened NvRuns
  import opened NvReturn

  type Lists = seq<seq<nat>>

  /** The list for runs of n cells. */
  function ListOf(n: nat): nat
    requires n >= 1
  {
    if n > NR_SIZES then NR_SIZES else n - 1
  }

  /** One list for each size up to 64 cells, and one for all larger ones. */
  lemma ListsBySize(n: nat, i: nat)
    requires n >= 1 && i <= 64
    ensures ListOf(n) == i <==> if i < 64 then n == i + 1 else n > 64
  {
  }

  lemma BestFitList(size: nat)
    requires size > 0
    ensures CellsFor(size) >= 1 && GetBestFit(size) == ListOf(CellsFor(size))
  {
  }

  lemma BestFitCells(n: nat)
    requires n >= 1
    ensures GetBestFit(BASE_SIZE * n) == ListOf(n)
  {
  }

  // ----- looking for a place -----

  /** The free run around the hint has room for n cells. */
  ghost predicate Roomy(occ: seq<bool>, fz: nat, hint: nat, n: nat) {
    exists a: nat, len: nat :: RunAround(occ, fz, hint, a, len) && n <= len
  }

  /** The hint at place j of list i is the first with room for n cells, in the lists from
      `first` on, one after the other, and the run around it has len cells from a on. */
  ghost predicate FirstRoomy(occ: seq<bool>, fz: nat, lists: Lists, first: nat, n: nat, i: nat, j: nat, a: nat,
      len: nat)
  {
    && first <= i < |lists| && j < |lists[i]|
    && RunAround(occ, fz, lists[i][j], a, len) && n <= len
    && TooSmallBefore(occ, fz, lists, first, n, i, j)
  }

  /** None of the hints before place j of list i has room for n cells. */
  ghost predicate TooSmallBefore(occ: seq<bool>, fz: nat, lists: Lists, first: nat, n: nat, i: nat, j: nat) {
    forall x: nat, y: nat :: x < |lists| && y < |lists[x]| && first <= x && (x < i || (x == i && y < j)) ==>
      !Roomy(occ, fz, lists[x][y], n)
  }

  /** The hints up to place j of list i are gone, and the others are as before. */
  ghost predicate DroppedTo(lists: Lists, lists': Lists, first: nat, i: nat, j: nat) {
    && |lists'| == |lists|
    && forall x: nat :: x < |lists| ==>
         if first <= x < i then lists'[x] == []
         else if x == i then j <= |lists[x]| && lists'[x] == lists[x][j..]
         else lists'[x] == lists[x]
  }

  /** A hint at p has been appended to list i, and nothing else has changed. */
  ghost predicate Appended(lists: Lists, lists': Lists, i: nat, p: nat) {
    |lists'| == |lists| && forall x: nat :: x < |lists| ==> lists'[x] == lists[x] + if x == i then [p] else []
  }

  /** The hints up to place j of list i are gone, and if the run of len cells at a is longer
      than n, a hint at what is left of it has been appended to the list of that length. */
  ghost predicate Followed(lists: Lists, lists': Lists, first: nat, n: nat, i: nat, j: nat, a: nat, len: nat) {
    && |lists'| == |lists|
    && forall x: nat :: x < |lists| ==>
         && (x == i ==> j < |lists[x]|)
         && lists'[x] == (if first <= x < i then [] else if x == i then lists[x][j + 1..] else lists[x])
                         + (if len > n && x == ListOf(len - n) then [a + n] else [])
  }

  /** The search for n cells ended at the first hint with room. */
  ghost predicate HintFollowed(occ: seq<bool>, fz: nat, lists: Lists, lists': Lists, n: nat, a: nat)
    requires n >= 1
  {
    exists i: nat, j: nat, len: nat ::
      FirstRoomy(occ, fz, lists, ListOf(n), n, i, j, a, len) && Followed(lists, lists', ListOf(n), n, i, j, a, len)
  }

  /** The search for n cells found no hint with room, and has used all of them up. */
  ghost predicate NoHintLeft(occ: seq<bool>, fz: nat, lists: Lists, lists': Lists, n: nat)
    requires n >= 1
  {
    && |lists'| == |lists|
    && forall x: nat :: x < |lists| ==>
         if ListOf(n) <= x then lists'[x] == [] && forall y: nat :: y < |lists[x]| ==> !Roomy(occ, fz, lists[x][y], n)
         else lists'[x] == lists[x]
  }

  /** Where the n cells at a were taken, and what that left of the lists. */
  ghost predicate Searched(occ: seq<bool>, fz: nat, lists: Lists, lists': Lists, n: nat, a: nat)
    requires n >= 1
  {
    HintFollowed(occ, fz, lists, lists', n, a) || (a == fz && NoHintLeft(occ, fz, lists, lists', n))
  }

  /** Only one run lies around a hint. */
  lemma AroundIsUnique(occ: seq<bool>, fz: nat, hint: nat, a: nat, len: nat, b: nat, m: nat)
    requires RunAround(occ, fz, hint, a, len) && RunAround(occ, fz, hint, b, m)
    ensures len == m && (hint <= fz ==> a == b)
  {
  }

  lemma NotRoomy(occ: seq<bool>, fz: nat, hint: nat, a: nat, len: nat, n: nat)
    requires RunAround(occ, fz, hint, a, len) && len < n
    ensures !Roomy(occ, fz, hint, n)
  {
    hide RunAround;
    forall b: nat, m: nat | RunAround(occ, fz, hint, b, m)
      ensures m < n
    {
      AroundIsUnique(occ, fz, hint, a, len, b, m);
    }
  }

  // The steps of the search.

  lemma SearchStart(occ: seq<bool>, fz: nat, lists: Lists, first: nat, n: nat)
    ensures DroppedTo(lists, lists, first, first, 0) && TooSmallBefore(occ, fz, lists, first, n, first, 0)
  {
    assert forall x: nat :: x < |lists| ==> lists[x][0..] == lists[x];
  }

  lemma SearchNextList(occ: seq<bool>, fz: nat, lists: Lists, lists': Lists, first: nat, n: nat, i: nat, j: nat)
    requires DroppedTo(lists, lists', first, i, j) && TooSmallBefore(occ, fz, lists, first, n, i, j)
    requires first <= i < |lists| && lists'[i] == []
    ensures DroppedTo(lists, lists', first, i + 1, 0) && TooSmallBefore(occ, fz, lists, first, n, i + 1, 0)
  {
    hide Roomy;
    assert forall x: nat :: x < |lists| ==> lists[x][0..] == lists[x];
  }

  lemma SearchPop(occ: seq<bool>, fz: nat, lists: Lists, lists': Lists, first: nat, n: nat, i: nat, j: nat)
    requires DroppedTo(lists, lists', first, i, j) && first <= i < |lists| && lists'[i] != []
    ensures j < |lists[i]| && lists'[i][0] == lists[i][j]
    ensures DroppedTo(lists, lists'[i := lists'[i][1..]], first, i, j + 1)
  {
  }

  lemma SearchTooSmall(occ: seq<bool>, fz: nat, lists: Lists, first: nat, n: nat, i: nat, j: nat, a: nat, len: nat)
    requires TooSmallBefore(occ, fz, lists, first, n, i, j) && first <= i < |lists| && j < |lists[i]|
    requires RunAround(occ, fz, lists[i][j], a, len) && len < n
    ensures TooSmallBefore(occ, fz, lists, first, n, i, j + 1)
  {
    NotRoomy(occ, fz, lists[i][j], a, len, n);
    hide Roomy, RunAround;
  }

  lemma SearchFound(occ: seq<bool>, fz: nat, lists: Lists, mid: Lists, lists': Lists, n: nat, i: nat, j: nat, a: nat,
      len: nat)
    requires n >= 1 && ListOf(n) <= i < |lists| && j < |lists[i]| && RunAround(occ, fz, lists[i][j], a, len) && n <= len
    requires TooSmallBefore(occ, fz, lists, ListOf(n), n, i, j) && DroppedTo(lists, mid, ListOf(n), i, j + 1)
    requires if len > n then Appended(mid, lists', ListOf(len - n), a + n) else lists' == mid
    ensures HintFollowed(occ, fz, lists, lists', n, a)
  {
    hide RunAround, TooSmallBefore;
    assert FirstRoomy(occ, fz, lists, ListOf(n), n, i, j, a, len);
    assert Followed(lists, lists', ListOf(n), n, i, j, a, len);
  }

  lemma SearchFailed(occ: seq<bool>, fz: nat, lists: Lists, lists': Lists, n: nat)
    requires n >= 1 && |lists| == NR_SIZES + 1
    requires DroppedTo(lists, lists', ListOf(n), |lists|, 0)
    requires TooSmallBefore(occ, fz, lists, ListOf(n), n, |lists|, 0)
    ensures NoHintLeft(occ, fz, lists, lists', n)
  {
    hide Roomy;
  }

  // ----- what a release adds -----

  /** The free run [a, e) around a block b returned under the frontier `top`: a run that reaches
      the frontier lowers it and adds no hint; one below it is hinted at in the list of its
      length, and its part from b on, when that is shorter, in the list of that length. */
  ghost predicate RunHinted(lists: Lists, lists': Lists, a: nat, b: nat, e: nat, top: nat, top': nat)
    requires a <= b < e
  {
    && top' == (if e < top then top else a)
    && |lists'| == |lists|
    && forall x: nat :: x < |lists| ==>
         lists'[x] == lists[x] + (if e < top && x == ListOf(e - a) then [a] else [])
                               + (if e < top && a < b && x == ListOf(e - b) then [b] else [])
  }

  /** What insertFreeLocation appends for 32-bit counts of cells: the list of size 0, at index -1,
      lies before the array. */
  ghost predicate HintsAdded(lists: Lists, lists': Lists, a: nat, total: nat, b: nat, forward: nat) {
    && |lists'| == |lists|
    && forall x: nat :: x < |lists| ==>
         lists'[x] == lists[x] + (if x == GetBestFit(BASE_SIZE * total) then [a] else [])
                               + (if forward != total && x == GetBestFit(BASE_SIZE * forward) then [b] else [])
  }

  /** Returning the n cells from b on; `fz` is the frontier the run is measured by. */
  ghost predicate Settled(occ: seq<bool>, fz: nat, b: nat, n: nat, lists: Lists, lists': Lists, top: nat, top': nat) {
    exists a: nat, e: nat ::
      MaxRun(Marked(occ, b, n, false), fz, a, e) && a <= b < e && RunHinted(lists, lists', a, b, e, top, top')
  }

  /** If the call releases the head of the queue and the run that makes is short enough, its
      hints have been added; if it releases nothing, lists and frontier are as before. */
  ghost predicate DueSettled(occ: seq<bool>, fz: nat, h: Heap, wait: nat, now: nat, lists: Lists, lists': Lists,
      top: nat, top': nat)
  {
    if Ripe(h, wait, now) && h.queue[0].start in h.blocks then
      var b := h.queue[0].start;
      RunFits(occ, fz, b, h.blocks[b]) ==> Settled(occ, fz, b, h.blocks[b], lists, lists', top, top')
    else lists' == lists && top' == top
  }

  /** A call that takes n cells at a and then releases what is due: the lists `hints` in between
      come from the search, and what is left comes from the release. */
  ghost predicate SearchedAndSettled(occ: seq<bool>, fz: nat, h: Heap, wait: nat, now: nat, a: nat, n: nat,
      lists: Lists, lists': Lists, fz': nat)
    requires n >= 1
  {
    exists hints: Lists ::
      && Searched(occ, fz, lists, hints, n, a)
      && DueSettled(Marked(occ, a, n, true), fz, h, wait, now, hints, lists', if a == fz then fz + n else fz, fz')
  }

  /** The marks after the call has released what is due. */
  function DueMarks(occ: seq<bool>, h: Heap, wait: nat, now: nat): seq<bool> {
    if Ripe(h, wait, now) && h.queue[0].start in h.blocks then
      Marked(occ, h.queue[0].start, h.blocks[h.queue[0].start], false)
    else occ
  }

  /** What insertFreeLocation does for a run below 4 GiB. */
  lemma InsertSettles(occ: seq<bool>, fz: nat, b: nat, n: nat, a: nat, e: nat, lists: Lists, lists': Lists, fz': nat)
    requires MaxRun(Marked(occ, b, n, false), fz, a, e) && a <= b < e
    requires e < fz ==> fz' == fz && HintsAdded(lists, lists', a, e - a, b, e - b)
    requires e == fz ==> fz' == a && lists' == lists
    ensures Settled(occ, fz, b, n, lists, lists', fz, fz')
  {
    hide Marked, GetBestFit;
    BestFitCells(e - a);
    BestFitCells(e - b);
  }

  // ----- a release and the next request -----

  lemma LongerRunLaterList(m: nat, n: nat)
    requires 1 <= m <= n
    ensures ListOf(m) <= ListOf(n)
  {
  }

  /** No hint in the lists for n cells and more has room for n. */
  ghost predicate AllTooSmall(occ: seq<bool>, fz: nat, lists: Lists, n: nat)
    requires n >= 1
  {
    forall x: nat, y: nat :: x < |lists| && y < |lists[x]| && ListOf(n) <= x ==> !Roomy(occ, fz, lists[x][y], n)
  }

  /** A released run is handed out again to the first request it is the first fit for: when no
      hint from before has room for m cells, and the run has, or has joined the frontier, m cells
      are taken from its start. */
  lemma ReleasedIsReused(occ: seq<bool>, fz: nat, b: nat, n: nat, lists: Lists, lists': Lists, fz': nat, m: nat,
      mid: Lists, p: nat)
    requires m >= 1 && |lists| == NR_SIZES + 1 && Settled(occ, fz, b, n, lists, lists', fz, fz')
    requires var s := Marked(occ, b, n, false);
      && AllTooSmall(s, fz', lists, m)
      && (forall a: nat, e: nat :: MaxRun(s, fz, a, e) && a <= b < e ==> e == fz || m <= e - a)
      && Searched(s, fz', lists', mid, m, p)
    ensures exists e: nat :: MaxRun(Marked(occ, b, n, false), fz, p, e) && p <= b < e
  {
    hide Marked, RunAround, MaxRun, AllTooSmall, HintFollowed, NoHintLeft, RunHinted;
    var s := Marked(occ, b, n, false);
    var a: nat, e: nat :| MaxRun(s, fz, a, e) && a <= b < e && RunHinted(lists, lists', a, b, e, fz, fz');
    RunAroundRun(s, fz, a, e, b, 0);
    if e < fz {
      RunFound(s, fz, lists, lists', a, b, e, fz', m, mid, p);
    } else {
      NoneFound(s, lists, lists', a, b, e, fz, fz', m, mid, p);
    }
  }

  lemma RunFound(s: seq<bool>, fz: nat, lists: Lists, lists': Lists, a: nat, b: nat, e: nat, fz': nat, m: nat,
      mid: Lists, p: nat)
    requires 1 <= m <= e - a && |lists| == NR_SIZES + 1 && MaxRun(s, fz, a, e) && a <= b < e < fz
    requires RunHinted(lists, lists', a, b, e, fz, fz') && AllTooSmall(s, fz', lists, m)
    requires Searched(s, fz', lists', mid, m, p)
    ensures p == a
  {
    hide RunAround, MaxRun, Roomy, TooSmallBefore;
    RunAroundRun(s, fz, a, e, a, m);
    RunAroundRun(s, fz, a, e, b, m);
    LongerRunLaterList(m, e - a);
    var l := ListOf(e - a);
    assert lists'[l][|lists[l]|] == a;
    if HintFollowed(s, fz', lists', mid, m, p) {
      var i: nat, j: nat, len: nat :| FirstRoomy(s, fz', lists', ListOf(m), m, i, j, p, len);
      RoomyHint(s, fz, lists'[i][j], p, len, m);
      assert j < |lists[i]| || lists'[i][j] == a || lists'[i][j] == b;
      AroundIsUnique(s, fz, lists'[i][j], p, len, a, e - a);
    }
  }

  lemma RoomyHint(occ: seq<bool>, fz: nat, hint: nat, a: nat, len: nat, n: nat)
    requires RunAround(occ, fz, hint, a, len) && n <= len
    ensures Roomy(occ, fz, hint, n)
  {
  }

  lemma NoneFound(s: seq<bool>, lists: Lists, lists': Lists, a: nat, b: nat, e: nat, fz: nat, fz': nat, m: nat,
      mid: Lists, p: nat)
    requires m >= 1 && a <= b < e && e == fz && RunHinted(lists, lists', a, b, e, fz, fz')
    requires AllTooSmall(s, fz', lists, m) && Searched(s, fz', lists', mid, m, p)
    ensures p == a
  {
    hide RunAround, Roomy, TooSmallBefore;
    if HintFollowed(s, fz', lists', mid, m, p) {
      var i: nat, j: nat, len: nat :| FirstRoomy(s, fz', lists', ListOf(m), m, i, j, p, len);
      RoomyHint(s, fz', lists'[i][j], p, len, m);
    }
  }

  lemma RunAroundRun(occ: seq<bool>, fz: nat, a: nat, e: nat, hint: nat, m: nat)
    requires MaxRun(occ, fz, a, e) && a <= hint < e && m <= e - a
    ensures e <= fz && RunAround(occ, fz, hint, a, e - a) && Roomy(occ, fz, hint, m)
  {
    var len := e - a;
    assert RunAround(occ, fz, hint, a, len);
  }
}
