/** The search loop of buddy_alloc as C compiles it. `index` is a uint64_t, so the tests for
    a negative index never hold, and going up from the root wraps around instead of ending
    the search. The class Buddy takes the tests at their word; here is where that differs. */
module BuddyWrap {
  import opened Powers
  import opened Sizing
  import opened BuddyTree
  import opened BuddyCursor
  import opened BuddyArray
  import opened BuddySearch

  const WORD: nat := 0x1_0000_0000_0000_0000

  /** Where a number of rounds of the loop lead: a node was found, -1 was returned, a node
      beyond the array was touched, or the loop still runs. */
  datatype Outcome = Found(index: nat, level: int) | Failed | Outside | Running

  /** (index + 1) / 2 - 1, and ++index */
  function Up(index: nat): nat {
    ((index + 1) % WORD / 2 - 1) % WORD
  }

  function Next(index: nat): nat {
    (index + 1) % WORD
  }

  datatype Place = Place(index: nat, level: int, length: nat)

  /** The backtracking of one round; None is its failure exit. */
  function Back(p: Place): Option<Place>
    decreases p.index
  {
    if p.index % 2 == 1 then Some(Place(Next(p.index), p.level, p.length))
    else
      var q := Place(Up(p.index), p.level - 1, p.length * 2 % WORD);
      if q.index < 0 then None
      else if q.index % 2 == 1 then Some(q.(index := Next(q.index)))
      else if q.index < p.index then Back(q)
      else None
  }

  /** The loop, for at most `fuel` rounds. */
  function Compiled(a: seq<Node>, p: Place, size: nat, fuel: nat): Outcome
    decreases fuel
  {
    if fuel == 0 then Running
    else if p.index < 0 then Failed
    else if p.index >= |a| then Outside
    else
      var state := a[p.index].state;
      if size == p.length && state == Unused then Found(p.index, p.level)
      else if size != p.length && state == Split then
        Compiled(a, Place(p.index * 2 + 1, p.level + 1, p.length / 2), size, fuel - 1)
      else if size != p.length && state == Unused then
        if p.index * 2 + 2 >= |a| then Outside
        else
          Compiled(SplitNode(a, p.index), Place(p.index * 2 + 1, p.level + 1, p.length / 2), size, fuel - 1)
      else match Back(p)
        case None => Failed
        case Some(q) => Compiled(a, q, size, fuel - 1)
  }

  /** At the root the way up wraps around to the root. */
  lemma WrapsAtRoot(level: int, length: nat)
    ensures Back(Place(0, level, length)) == Some(Place(0, level - 1, length * 2 % WORD))
  {
  }

  /** The failure exit is never taken. */
  lemma {:induction false} BackGoesOn(p: Place)
    ensures Back(p).Some?
    decreases p.index
  {
    if p.index % 2 == 0 {
      if p.index == 0 {
        WrapsAtRoot(p.level, p.length);
      } else {
        UpHalves(p.index);
        BackGoesOn(Place(Up(p.index), p.level - 1, p.length * 2 % WORD));
      }
    }
  }

  lemma UpHalves(index: nat)
    requires index > 0
    ensures Up(index) < index || Up(index) == WORD - 1
    ensures index < WORD - 1 ==> Up(index) == (index + 1) / 2 - 1
    ensures Up(index) % 2 == 0 ==> Up(index) < index
  {
  }

  lemma {:induction false} NeverFails(a: seq<Node>, p: Place, size: nat, fuel: nat)
    ensures Compiled(a, p, size, fuel) != Failed
    decreases fuel
  {
    if fuel > 0 && p.index < |a| {
      BackGoesOn(p);
      var down := Place(p.index * 2 + 1, p.level + 1, p.length / 2);
      NeverFails(a, down, size, fuel - 1);
      NeverFails(a, Back(p).value, size, fuel - 1);
      if 2 * p.index + 2 < |a| {
        NeverFails(SplitNode(a, p.index), down, size, fuel - 1);
      }
    }
  }

  /** In a full arena the search goes round the root for ever. */
  lemma {:induction false} FullArenaHangs(a: seq<Node>, level: int, length: nat, size: nat, fuel: nat)
    requires |a| > 0 && a[0].state in {Used, Full}
    ensures Compiled(a, Place(0, level, length), size, fuel) == Running
    decreases fuel
  {
    if fuel > 0 {
      WrapsAtRoot(level, length);
      FullArenaHangs(a, level - 1, length * 2 % WORD, size, fuel - 1);
    }
  }

  /** With room for one page of two, a request for two pages is given the second one, under
      an offset beyond the arena. */
  lemma WrongPlace(a: seq<Node>, fuel: nat)
    requires |a| == 3 && a[0].state == Split && a[1].state == Used && a[2].state == Unused && fuel >= 4
    ensures Compiled(a, Place(0, 0, 2), 2, fuel) == Found(2, 0)
    ensures PAGE_SIZE * ((2 + 1 - Pow2(0)) * Pow2(1 - 0)) >= PAGE_SIZE * 2
  {
    WrapsAtRoot(0, 2);
    assert Compiled(a, Place(0, -1, 4), 2, fuel - 1) == Compiled(a, Place(1, 0, 2), 2, fuel - 2);
    assert Back(Place(1, 0, 2)) == Some(Place(2, 0, 2));
    assert Compiled(a, Place(2, 0, 2), 2, fuel - 3) == Found(2, 0);
  }

  // ----- one pass over the tree -----

  /** Where pass j begins: each time round the root takes a level off and doubles the length. */
  function Again(maxLevel: nat, j: nat): Place {
    Place(0, -(j as int), Pow2(maxLevel + j))
  }

  /** The loop variables describe the focus, in pass j. */
  ghost predicate On(a: seq<Node>, p: Place, z: Focus, maxLevel: nat, j: nat) {
    p.length == Pow2(z.h + j) && Here(a, p.index, p.level + j, Pow2(z.h), z, maxLevel)
  }

  /** Below the word size the rounds of `Back` are the intended ones. */
  lemma BackAside(p: Place)
    requires p.index % 2 == 1 && p.index + 1 < WORD
    ensures Back(p) == Some(Place(p.index + 1, p.level, p.length))
  {
  }

  lemma ModSmall(x: nat)
    requires x < WORD
    ensures x % WORD == x
  {
  }

  lemma BackUp(p: Place)
    requires p.index % 2 == 0 && 0 < p.index < WORD - 1 && p.length * 2 < WORD
    ensures (p.index + 1) / 2 - 1 < p.index
    ensures Back(p) == Back(Place((p.index + 1) / 2 - 1, p.level - 1, p.length * 2))
  {
    hide Up, Next;
    UpHalves(p.index);
    ModSmall(p.length * 2);
  }

  lemma InWord(a: seq<Node>, p: Place, z: Focus, maxLevel: nat, j: nat)
    requires maxLevel <= MAX_LEVEL && j <= maxLevel && On(a, p, z, maxLevel, j)
    ensures p.index + 2 < WORD && p.length * 2 < WORD
    ensures p.index == 0 ==> p == Again(maxLevel, j)
  {
    hide Repr, Pow2;
    ChildrenExist(a, p.index, z.h, z.c, Closed(z.t));
    Pow2Double(z.h + j);
    PowerInWord(z.h + j + 1);
    PowerInWord(maxLevel + 1);
  }

  lemma PowerInWord(n: nat)
    requires n < 64
    ensures Pow2(n) < WORD
  {
    hide Pow2;
    Pow2Constants();
    Pow2Sum(32, 32);
    Pow2Monotone(n, 64);
  }

  /** Backtracking leads to the next subtree in preorder, or round the root into the next pass. */
  lemma {:induction false} BackLeads(a: seq<Node>, p: Place, z: Focus, maxLevel: nat, j: nat, t: nat, s: nat,
      shape: Tree) returns (y: Option<Focus>)
    requires maxLevel <= MAX_LEVEL && j <= maxLevel && On(a, p, z, maxLevel, j)
    requires Pending(z, t, s, shape) && Fit(z.t, z.h, t, s).None?
    ensures Back(p).Some?
    ensures y.None? ==> Back(p).value == Again(maxLevel, j + 1) && Fit(shape, maxLevel, t, s).None?
    ensures y.Some? ==> On(a, Back(p).value, y.value, maxLevel, j) && Pending(y.value, t, s, shape)
    ensures y.Some? ==> Remaining(y.value, maxLevel) <= Remaining(z, maxLevel) - Pow2(z.h)
    decreases p.index
  {
    hide Repr, ReprCtx, Fit, Closed, LeftFailed, Plug, Off, Depth, Here, Pending, Remaining, Back, Pow2;
    InWord(a, p, z, maxLevel, j);
    var level, length := p.level + j, Pow2(z.h);
    if p.index % 2 == 1 {
      StepAside(a, p.index, level, length, z, maxLevel, t, s, shape);
      BackAside(p);
      y := Some(Focus(z.h, Right(z.c.up, z.t), z.c.sibling));
    } else if p.index == 0 {
      SearchFails(a, level, length, z, maxLevel, t, s, shape);
      WrapsAtRoot(p.level, p.length);
      Pow2Double(maxLevel + j);
      ModSmall(p.length * 2);
      y := None;
    } else {
      StepUp(a, p.index, level, length, z, maxLevel, t, s, shape);
      BackUp(p);
      Pow2Double(z.h);
      Pow2Double(z.h + j);
      var up := Place((p.index + 1) / 2 - 1, p.level - 1, p.length * 2);
      y := BackLeads(a, up, Focus(z.h + 1, z.c.up, Inner(z.c.sibling, z.t)), maxLevel, j, t, s, shape);
    }
  }

  // One round of the loop.

  lemma RoundFound(a: seq<Node>, p: Place)
    requires p.index < |a| && a[p.index].state == Unused
    ensures Compiled(a, p, p.length, 1) == Found(p.index, p.level)
  {
  }

  lemma RoundDown(a: seq<Node>, p: Place, size: nat, f: nat)
    requires 2 * p.index + 2 < |a| && size != p.length && a[p.index].state in {Unused, Split}
    ensures var b := if a[p.index].state == Unused then SplitNode(a, p.index) else a;
      Compiled(a, p, size, f + 1) == Compiled(b, Place(p.index * 2 + 1, p.level + 1, p.length / 2), size, f)
  {
  }

  lemma RoundBack(a: seq<Node>, p: Place, size: nat, f: nat)
    requires p.index < |a| && Back(p).Some?
    requires if size == p.length then a[p.index].state != Unused else a[p.index].state in {Used, Full}
    ensures Compiled(a, p, size, f + 1) == Compiled(a, Back(p).value, size, f)
  {
  }

  /** The focus as the steps of the search know it. */
  lemma Reached(a: seq<Node>, p: Place, z: Focus, maxLevel: nat, j: nat, t: nat, s: nat, shape: Tree)
    requires On(a, p, z, maxLevel, j)
    requires Pending(z, t, s, shape) || OnTarget(z, t, s, Fit(shape, maxLevel, t, s))
    ensures p.index < |a| && t <= z.h && Remaining(z, maxLevel) > 0
    ensures p.length == Pow2(t + j) <==> z.h == t
    ensures z.h > t ==> 2 * p.index + 2 < |a| && p.length / 2 == Pow2(z.h - 1 + j) && Pow2(z.h) / 2 == Pow2(z.h - 1)
    ensures z.t.Vacant? <==> a[p.index].state == Unused
    ensures z.t.Inner? && !Closed(z.t) <==> a[p.index].state == Split
    ensures z.t.Vacant? <==> OnTarget(z, t, s, Fit(shape, maxLevel, t, s))
  {
    hide Repr, ReprCtx, Fit, Closed, Plug, Off, Pow2, Remaining, Here, Pending, OnTarget;
    Arrive(a, p.index, p.level + j, Pow2(z.h), z, maxLevel, t, s, shape);
    if z.h > t {
      Pow2Double(z.h - 1);
      Pow2Double(z.h - 1 + j);
    }
    if p.length == Pow2(t + j) {
      Pow2Injective(z.h + j, t + j);
    }
  }

  /** A pass that finds no place leaves the nodes alone and leads into the next one, which
      looks for half the size. */
  lemma {:induction false} PassFails(a: seq<Node>, p: Place, z: Focus, maxLevel: nat, j: nat, t: nat, s: nat,
      shape: Tree, f: nat) returns (n: nat)
    requires maxLevel <= MAX_LEVEL && j <= maxLevel && On(a, p, z, maxLevel, j)
    requires Pending(z, t, s, shape) && Fit(shape, maxLevel, t, s).None?
    ensures Compiled(a, p, Pow2(t + j), n) == Compiled(a, Again(maxLevel, j + 1), Pow2(t + j), f)
    decreases Remaining(z, maxLevel), z.h
  {
    hide Repr, ReprCtx, Fit, Closed, Plug, Off, Pow2, Remaining, Here, Pending, Back, Compiled, SplitNode, Again;
    Reached(a, p, z, maxLevel, j, t, s, shape);
    if a[p.index].state == Split && z.h > t {
      StepDown(a, p.index, p.level + j, Pow2(z.h), z, maxLevel, t, s, shape);
      var down := Place(p.index * 2 + 1, p.level + 1, p.length / 2);
      n := PassFails(a, down, Focus(z.h - 1, Left(z.c, z.t.right), z.t.left), maxLevel, j, t, s, shape, f);
      RoundDown(a, p, Pow2(t + j), n);
    } else {
      NoRoomHere(a, p.index, p.level + j, Pow2(z.h), z, maxLevel, t, s);
      var y := BackLeads(a, p, z, maxLevel, j, t, s, shape);
      match y {
        case None => n := f;
        case Some(x) => n := PassFails(a, Back(p).value, x, maxLevel, j, t, s, shape, f);
      }
      RoundBack(a, p, Pow2(t + j), n);
    }
    n := n + 1;
  }

  /** The search ends, in pass j, at the node of 2^t pages at page `at`. */
  ghost predicate FoundAt(r: Outcome, maxLevel: nat, t: nat, j: nat, at: nat)
    requires t <= maxLevel
  {
    && r.Found? && r.level == maxLevel - t - j
    && (r.index + 1 - Pow2(maxLevel - t)) * Pow2(t) == at
  }

  /** A pass with a place to find ends at the first fit. */
  lemma {:induction false} FindsFirstFit(a: seq<Node>, p: Place, z: Focus, maxLevel: nat, j: nat, t: nat, s: nat,
      shape: Tree) returns (fuel: nat)
    requires maxLevel <= MAX_LEVEL && j <= maxLevel && t <= maxLevel && On(a, p, z, maxLevel, j)
    requires Pending(z, t, s, shape) || OnTarget(z, t, s, Fit(shape, maxLevel, t, s))
    requires Fit(shape, maxLevel, t, s).Some?
    ensures FoundAt(Compiled(a, p, Pow2(t + j), fuel), maxLevel, t, j, Fit(shape, maxLevel, t, s).value.at)
    decreases Remaining(z, maxLevel), z.h
  {
    hide Repr, ReprCtx, Fit, Closed, Plug, Off, Pow2, Remaining, Here, Pending, OnTarget, Back, Compiled, FoundAt,
      SplitNode;
    Reached(a, p, z, maxLevel, j, t, s, shape);
    var goal := Fit(shape, maxLevel, t, s);
    var i, down := p.index, Place(p.index * 2 + 1, p.level + 1, p.length / 2);
    var f: nat;
    if a[i].state == Unused && z.h == t {
      RoundFound(a, p);
      FoundIsPlaced(a, p, z, maxLevel, j, t, s, goal);
      fuel := 1;
      return;
    }
    if a[i].state == Unused {
      SplitStep(a, p, z, maxLevel, j, t, s, goal);
      f := FindsFirstFit(SplitNode(a, i), down, Focus(z.h - 1, Left(z.c, Vacant), Vacant), maxLevel, j, t, s, shape);
      RoundDown(a, p, Pow2(t + j), f);
    } else if a[i].state == Split && z.h > t {
      StepDown(a, i, p.level + j, Pow2(z.h), z, maxLevel, t, s, shape);
      f := FindsFirstFit(a, down, Focus(z.h - 1, Left(z.c, z.t.right), z.t.left), maxLevel, j, t, s, shape);
      RoundDown(a, p, Pow2(t + j), f);
    } else {
      NoRoomHere(a, i, p.level + j, Pow2(z.h), z, maxLevel, t, s);
      var y := BackLeads(a, p, z, maxLevel, j, t, s, shape);
      f := FindsFirstFit(a, Back(p).value, y.value, maxLevel, j, t, s, shape);
      RoundBack(a, p, Pow2(t + j), f);
    }
    fuel := f + 1;
  }

  lemma FoundIsPlaced(a: seq<Node>, p: Place, z: Focus, maxLevel: nat, j: nat, t: nat, s: nat, goal: Option<Placed>)
    requires On(a, p, z, maxLevel, j) && OnTarget(z, t, s, goal) && z.h == t <= maxLevel
    requires p.index < |a|
    ensures goal.Some? && FoundAt(Found(p.index, p.level), maxLevel, t, j, goal.value.at)
  {
    hide Repr, ReprCtx, Fit, Closed, Plug, Off, Pow2, OnTarget;
    StepFound(a, p.index, p.level + j, Pow2(z.h), z, maxLevel, t, s, goal);
  }

  lemma SplitStep(a: seq<Node>, p: Place, z: Focus, maxLevel: nat, j: nat, t: nat, s: nat, goal: Option<Placed>)
    requires On(a, p, z, maxLevel, j) && OnTarget(z, t, s, goal) && t < z.h
    requires 2 * p.index + 2 < |a|
    ensures var y := Focus(z.h - 1, Left(z.c, Vacant), Vacant);
      && On(SplitNode(a, p.index), Place(2 * p.index + 1, p.level + 1, p.length / 2), y, maxLevel, j)
      && OnTarget(y, t, s, goal)
      && Remaining(y, maxLevel) == Remaining(z, maxLevel)
  {
    hide Repr, ReprCtx, Fit, Closed, Plug, Off, Pow2, Here, OnTarget, Remaining;
    Pow2Double(z.h - 1);
    Pow2Double(z.h - 1 + j);
    StepSplit(a, SplitNode(a, p.index), p.index, p.level + j, Pow2(z.h), z, maxLevel, t, s, goal);
  }

  // ----- pass after pass -----

  /** From pass j on, the search ends in the first pass that has a place to find. */
  lemma {:induction false} PassesLead(a: seq<Node>, maxLevel: nat, j: nat, t: nat, m: nat, s: nat, shape: Tree)
      returns (fuel: nat)
    requires maxLevel <= MAX_LEVEL && |a| == Pow2(maxLevel + 1) - 1 && Repr(a, 0, maxLevel, shape)
    requires m <= t && t + j <= maxLevel
    requires forall n: nat :: m < n <= t ==> Fit(shape, maxLevel, n, s).None?
    requires Fit(shape, maxLevel, m, s).Some?
    ensures var r := Compiled(a, Again(maxLevel, j), Pow2(t + j), fuel);
      FoundAt(r, maxLevel, m, t + j - m, Fit(shape, maxLevel, m, s).value.at)
    decreases t
  {
    hide Repr, Fit, Pow2, Compiled, FoundAt, Here, Pending;
    Start(a, maxLevel, t, s, shape);
    var z := Focus(maxLevel, Top, shape);
    if m == t {
      fuel := FindsFirstFit(a, Again(maxLevel, j), z, maxLevel, j, t, s, shape);
    } else {
      var f := PassesLead(a, maxLevel, j + 1, t - 1, m, s, shape);
      fuel := PassFails(a, Again(maxLevel, j), z, maxLevel, j, t, s, shape, f);
    }
  }

  /** 2^m pages is the largest size up to 2^k for which some aligned run is free. */
  ghost predicate LargestFree(live: map<nat, Entry>, m: nat, k: nat, total: nat) {
    m <= k && !NoFit(live, Pow2(m), total) && forall n: nat :: m < n <= k ==> NoFit(live, Pow2(n), total)
  }

  /** The search ends at node i. */
  ghost predicate EndsAt(a: seq<Node>, maxLevel: nat, k: nat, i: nat) {
    exists fuel: nat :: Compiled(a, Again(maxLevel, 0), Pow2(k), fuel) == Found(i, maxLevel - k)
  }

  /** x << n */
  function Shifted(x: int, n: nat): int {
    if n == 0 then x else 2 * Shifted(x, n - 1)
  }

  lemma {:induction false} ShiftMultiplies(x: int, n: nat)
    ensures Shifted(x, n) == x * Pow2(n)
  {
    if n > 0 {
      ShiftMultiplies(x, n - 1);
      assert 2 * (x * Pow2(n - 1)) == x * (2 * Pow2(n - 1));
    }
  }

  /** The page offset computed for node i as one of 2^t pages. */
  function OffsetAs(i: nat, t: nat, maxLevel: nat): int
    requires t <= maxLevel
  {
    Shifted(i + 1 - Pow2(maxLevel - t), t)
  }

  /** What the compiled search for 2^k pages grants as soon as a page is free: the lowest
      aligned run of the largest free size up to 2^k, and under the offset meant only when that
      is 2^k itself. Otherwise the offset lies beyond the arena. */
  lemma CompiledAnswer(a: seq<Node>, maxLevel: nat, k: nat, m: nat, s: nat, shape: Tree) returns (i: nat, o: nat)
    requires maxLevel <= MAX_LEVEL && |a| == Pow2(maxLevel + 1) - 1 && Repr(a, 0, maxLevel, shape) && k <= maxLevel
    requires Canonical(shape, maxLevel)
    requires LargestFree(Blocks(shape, maxLevel, 0), m, k, Pow2(maxLevel))
    ensures EndsAt(a, maxLevel, k, i)
    ensures LowestFit(Blocks(shape, maxLevel, 0), o, Pow2(m), Pow2(maxLevel)) && OffsetAs(i, m, maxLevel) == o
    ensures OffsetAs(i, k, maxLevel) == Shifted(Pow2(maxLevel) + o, k - m) - Pow2(maxLevel)
    ensures if m == k then OffsetAs(i, k, maxLevel) == o else OffsetAs(i, k, maxLevel) >= Pow2(maxLevel)
  {
    hide Repr, Fit, Canonical, Pow2, Compiled, NoFit, LowestFit, Shifted;
    FitsOf(shape, maxLevel, k, s);
    var fuel := PassesLead(a, maxLevel, 0, k, m, s, shape);
    i := Compiled(a, Again(maxLevel, 0), Pow2(k), fuel).index;
    o := Fit(shape, maxLevel, m, s).value.at;
    ShiftMultiplies(i + 1 - Pow2(maxLevel - m), m);
    GrantedOffset(maxLevel, k, m, i, o);
  }

  lemma GrantedOffset(maxLevel: nat, k: nat, m: nat, i: nat, o: nat)
    requires m <= k <= maxLevel && OffsetAs(i, m, maxLevel) == o
    ensures OffsetAs(i, k, maxLevel) == Shifted(Pow2(maxLevel) + o, k - m) - Pow2(maxLevel)
    ensures if m == k then OffsetAs(i, k, maxLevel) == o else OffsetAs(i, k, maxLevel) >= Pow2(maxLevel)
  {
    hide Pow2, Shifted;
    ShiftMultiplies(i + 1 - Pow2(maxLevel - m), m);
    ShiftMultiplies(i + 1 - Pow2(maxLevel - k), k);
    ShiftMultiplies(Pow2(maxLevel) + o, k - m);
    Pow2Sum(maxLevel - m, m);
    Pow2Sum(maxLevel - k, k);
    Pow2Sum(k - m, m);
    Rescaled(i + 1, Pow2(maxLevel - m), Pow2(m), Pow2(maxLevel - k), Pow2(k - m), Pow2(maxLevel), o);
    if m < k {
      Pow2Double(0);
      Pow2Monotone(1, k - m);
      MulLe(2, Pow2(k - m), Pow2(maxLevel) + o);
    }
  }

  lemma Rescaled(n: nat, u: nat, q: nat, v: nat, x: nat, p: nat, o: nat)
    requires u * q == p && v * (x * q) == p && (n - u) * q == o
    ensures (n - v) * (x * q) == x * (p + o) - p
  {
    Distribute(n, u, q);
    Distribute(n, v, x * q);
    assert n * (x * q) == x * (n * q);
  }

  lemma Distribute(a: int, b: int, c: int)
    ensures (a - b) * c == a * c - b * c
  {
  }

  lemma FitsOf(shape: Tree, maxLevel: nat, k: nat, s: nat)
    requires Canonical(shape, maxLevel) && k <= maxLevel
    ensures forall n: nat :: n <= k ==>
      var goal := Fit(shape, maxLevel, n, s);
      && (goal.None? <==> NoFit(Blocks(shape, maxLevel, 0), Pow2(n), Pow2(maxLevel)))
      && (goal.Some? ==> LowestFit(Blocks(shape, maxLevel, 0), goal.value.at, Pow2(n), Pow2(maxLevel)))
  {
    hide Fit, Canonical, Pow2, NoFit, LowestFit, Blocks;
    forall n: nat | n <= k
      ensures var goal := Fit(shape, maxLevel, n, s);
        && (goal.None? <==> NoFit(Blocks(shape, maxLevel, 0), Pow2(n), Pow2(maxLevel)))
        && (goal.Some? ==> LowestFit(Blocks(shape, maxLevel, 0), goal.value.at, Pow2(n), Pow2(maxLevel)))
    {
      FirstFit(shape, maxLevel, n, s, Pow2(n));
      if Fit(shape, maxLevel, n, s).Some? {
        LowestFits(Blocks(shape, maxLevel, 0), Fit(shape, maxLevel, n, s).value.at, Pow2(n), Pow2(maxLevel));
      }
    }
  }

  lemma LowestFits(live: map<nat, Entry>, o: nat, n: nat, total: nat)
    requires n > 0 && LowestFit(live, o, n, total)
    ensures !NoFit(live, n, total)
  {
  }

  /** A tree without a free page is USED or FULL at the root. */
  lemma {:induction false} NoPageCloses(t: Tree, h: nat, s: nat)
    requires Canonical(t, h) && Fit(t, h, 0, s).None?
    ensures Closed(t)
  {
    match t
    case Vacant => FreeHasRoom(h, 0, s);
    case Block(_) =>
    case Inner(l, r) =>
      NoPageCloses(l, h - 1, s);
      NoPageCloses(r, h - 1, s);
  }

  lemma {:induction false} LargestExists(live: map<nat, Entry>, k: nat, total: nat) returns (m: nat)
    requires !NoFit(live, 1, total)
    ensures LargestFree(live, m, k, total)
  {
    hide NoFit;
    if !NoFit(live, Pow2(k), total) {
      m := k;
    } else {
      m := LargestExists(live, k - 1, total);
    }
  }

  ghost predicate NeverEnds(a: seq<Node>, maxLevel: nat, k: nat) {
    forall fuel: nat :: Compiled(a, Again(maxLevel, 0), Pow2(k), fuel) == Running
  }

  /** The compiled search runs for ever exactly when no page is free. */
  lemma CompiledEnds(a: seq<Node>, maxLevel: nat, k: nat, s: nat, shape: Tree)
    requires maxLevel <= MAX_LEVEL && |a| == Pow2(maxLevel + 1) - 1 && Repr(a, 0, maxLevel, shape) && k <= maxLevel
    requires Canonical(shape, maxLevel)
    ensures NeverEnds(a, maxLevel, k) <==> NoFit(Blocks(shape, maxLevel, 0), 1, Pow2(maxLevel))
  {
    hide Fit, Canonical, Compiled, NoFit, LowestFit;
    var live := Blocks(shape, maxLevel, 0);
    if NoFit(live, 1, Pow2(maxLevel)) {
      FitsOf(shape, maxLevel, 0, s);
      NoPageCloses(shape, maxLevel, s);
      forall fuel: nat
        ensures Compiled(a, Again(maxLevel, 0), Pow2(k), fuel) == Running
      {
        FullArenaHangs(a, 0, Pow2(maxLevel), Pow2(k), fuel);
      }
    } else {
      var m := LargestExists(live, k, Pow2(maxLevel));
      var i, o := CompiledAnswer(a, maxLevel, k, m, s, shape);
    }
  }

  /** The answer the search is meant to give. */
  ghost predicate Intended(r: Outcome, maxLevel: nat, k: nat, goal: Option<Placed>)
    requires k <= maxLevel
  {
    match goal
    case None => r == Failed
    case Some(p) => FoundAt(r, maxLevel, k, 0, p.at)
  }

  /** Some number of rounds gives the intended answer. */
  ghost predicate AnswersAsIntended(a: seq<Node>, maxLevel: nat, k: nat, s: nat, shape: Tree)
    requires k <= maxLevel
  {
    exists fuel: nat ::
      Intended(Compiled(a, Again(maxLevel, 0), Pow2(k), fuel), maxLevel, k, Fit(shape, maxLevel, k, s))
  }

  /** The compiled search gives the intended answer exactly when some aligned run of pages is
      free: failure is the one answer it cannot give. */
  lemma CompiledAsIntended(a: seq<Node>, maxLevel: nat, k: nat, s: nat, shape: Tree)
    requires maxLevel <= MAX_LEVEL && |a| == Pow2(maxLevel + 1) - 1 && Repr(a, 0, maxLevel, shape) && k <= maxLevel
    requires Canonical(shape, maxLevel)
    ensures AnswersAsIntended(a, maxLevel, k, s, shape)
       <==> !NoFit(Blocks(shape, maxLevel, 0), Pow2(k), Pow2(maxLevel))
  {
    hide Repr, Fit, Pow2, Compiled, NoFit, LowestFit;
    FitsOf(shape, maxLevel, k, s);
    if Fit(shape, maxLevel, k, s).Some? {
      var fuel := PassesLead(a, maxLevel, 0, k, k, s, shape);
    } else {
      forall fuel: nat
        ensures Compiled(a, Again(maxLevel, 0), Pow2(k), fuel) != Failed
      {
        NeverFails(a, Again(maxLevel, 0), Pow2(k), fuel);
      }
    }
  }
}
