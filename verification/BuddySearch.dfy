/** The steps of the backtracking first-fit search, one lemma each. */
module BuddySearch {
  import opened Powers
  import opened Sizing
  import opened BuddyTree
  import opened BuddyCursor
  import opened BuddyArray

  /** Pages [o, o + n) of an arena of `total` pages can take a block of n pages. */
  ghost predicate Fits(live: map<nat, Entry>, o: nat, n: nat, total: nat)
    requires n > 0
  {
    o % n == 0 && o + n <= total && FreeRun(live, o, n)
  }

  /** `o` is the lowest place for a block of n pages. */
  ghost predicate LowestFit(live: map<nat, Entry>, o: nat, n: nat, total: nat)
    requires n > 0
  {
    Fits(live, o, n, total) && forall p: nat :: p < o ==> !Fits(live, p, n, total)
  }

  ghost predicate NoFit(live: map<nat, Entry>, n: nat, total: nat)
    requires n > 0
  {
    forall o: nat :: !Fits(live, o, n, total)
  }

  /** A node height, the surroundings of the node, and its subtree. */
  datatype Focus = Focus(h: nat, c: Ctx, t: Tree)

  /** The loop variables index, level and length describe the focus. */
  ghost predicate Here(a: seq<Node>, index: int, level: int, length: int, z: Focus, maxLevel: nat) {
    && index >= 0
    && |a| == Pow2(maxLevel + 1) - 1
    && level == Depth(z.c)
    && z.h + Depth(z.c) == maxLevel
    && length == Pow2(z.h)
    && Repr(a, index, z.h, z.t)
    && ReprCtx(a, index, z.h, z.c, Closed(z.t))
  }

  /** Nothing is split yet, and everything before the focus is known not to fit. */
  ghost predicate Pending(z: Focus, k: nat, s: nat, shape: Tree) {
    k <= z.h && Plug(z.c, z.t) == shape && LeftFailed(z.c, z.h, k, s)
  }

  /** The focus is free, and first fit is its left end: no backtracking from here on. */
  ghost predicate OnTarget(z: Focus, k: nat, s: nat, goal: Option<Placed>) {
    && k <= z.h && z.t.Vacant?
    && var p := Fit(Vacant, z.h, k, s);
       p.Some? && goal == Some(Placed(Plug(z.c, p.value.tree), Off(z.c, z.h) + p.value.at))
  }

  function Remaining(z: Focus, maxLevel: nat): int {
    Pow2(maxLevel) - Off(z.c, z.h)
  }

  lemma {:induction false} OffBound(c: Ctx, h: nat)
    ensures Off(c, h) + Pow2(h) <= Pow2(h + Depth(c))
  {
    if !c.Top? {
      OffBound(c.up, h + 1);
    }
  }

  lemma Start(a: seq<Node>, maxLevel: nat, k: nat, s: nat, shape: Tree)
    requires |a| == Pow2(maxLevel + 1) - 1 && Repr(a, 0, maxLevel, shape) && k <= maxLevel
    ensures Here(a, 0, 0, Pow2(maxLevel), Focus(maxLevel, Top, shape), maxLevel)
    ensures Pending(Focus(maxLevel, Top, shape), k, s, shape)
  {
  }

  lemma Arrive(a: seq<Node>, index: int, level: int, length: int, z: Focus, maxLevel: nat, k: nat, s: nat, shape: Tree)
    requires Here(a, index, level, length, z, maxLevel)
    requires Pending(z, k, s, shape) || OnTarget(z, k, s, Fit(shape, maxLevel, k, s))
    ensures 0 <= index < |a| && (z.h > 0 ==> 2 * index + 2 < |a|)
    ensures 0 <= level <= maxLevel && z.h + Depth(z.c) == maxLevel && length == Pow2(z.h) && k <= z.h
    ensures length != Pow2(k) ==> k < z.h
    ensures Remaining(z, maxLevel) > 0
    ensures z.t.Vacant? <==> a[index].state == Unused
    ensures z.t.Inner? && !Closed(z.t) <==> a[index].state == Split
    ensures z.t.Vacant? <==> OnTarget(z, k, s, Fit(shape, maxLevel, k, s))
  {
    ChildrenExist(a, index, z.h, z.c, Closed(z.t));
    OffBound(z.c, z.h);
    if z.t.Vacant? && Pending(z, k, s, shape) {
      FreeHasRoom(z.h, k, s);
      AllocAtFocus(z.c, z.t, z.h, k, s);
    }
  }

  lemma StepSplit(a: seq<Node>, b: seq<Node>, index: int, level: int, length: int, z: Focus, maxLevel: nat, k: nat,
      s: nat, goal: Option<Placed>)
    requires Here(a, index, level, length, z, maxLevel) && OnTarget(z, k, s, goal) && k < z.h
    requires 2 * index + 2 < |a|
    requires b == SplitNode(a, index)
    ensures var y := Focus(z.h - 1, Left(z.c, Vacant), Vacant);
      && Here(b, 2 * index + 1, level + 1, length / 2, y, maxLevel)
      && OnTarget(y, k, s, goal)
      && Remaining(y, maxLevel) == Remaining(z, maxLevel)
  {
    SplitFocus(a, b, index, z.h, z.c);
    FreeHasRoom(z.h - 1, k, s);
  }

  lemma StepDown(a: seq<Node>, index: int, level: int, length: int, z: Focus, maxLevel: nat, k: nat, s: nat,
      shape: Tree)
    requires Here(a, index, level, length, z, maxLevel) && z.t.Inner?
    ensures z.h > 0
    ensures var y := Focus(z.h - 1, Left(z.c, z.t.right), z.t.left);
      && Here(a, 2 * index + 1, level + 1, length / 2, y, maxLevel)
      && (Pending(z, k, s, shape) && k < z.h ==> Pending(y, k, s, shape))
      && Remaining(y, maxLevel) == Remaining(z, maxLevel)
  {
    Descend(a, index, z.h, z.c, z.t);
  }

  lemma StepAside(a: seq<Node>, index: int, level: int, length: int, z: Focus, maxLevel: nat, k: nat, s: nat,
      shape: Tree)
    requires Here(a, index, level, length, z, maxLevel) && index % 2 == 1
    requires Pending(z, k, s, shape) && Fit(z.t, z.h, k, s).None?
    ensures z.c.Left?
    ensures var y := Focus(z.h, Right(z.c.up, z.t), z.c.sibling);
      && Here(a, index + 1, level, length, y, maxLevel)
      && Pending(y, k, s, shape)
      && Remaining(y, maxLevel) == Remaining(z, maxLevel) - Pow2(z.h) < Remaining(z, maxLevel)
  {
    ToSibling(a, index, z.h, z.c, z.t);
  }

  lemma StepUp(a: seq<Node>, index: int, level: int, length: int, z: Focus, maxLevel: nat, k: nat, s: nat, shape: Tree)
    requires Here(a, index, level, length, z, maxLevel) && index % 2 == 0 && index > 0
    requires Pending(z, k, s, shape) && Fit(z.t, z.h, k, s).None?
    ensures z.c.Right?
    ensures var y := Focus(z.h + 1, z.c.up, Inner(z.c.sibling, z.t));
      && Here(a, (index + 1) / 2 - 1, level - 1, length * 2, y, maxLevel)
      && Pending(y, k, s, shape)
      && Fit(y.t, y.h, k, s).None?
      && Remaining(y, maxLevel) - Pow2(y.h) == Remaining(z, maxLevel) - Pow2(z.h)
  {
    Ascend(a, index, z.h, z.c, z.t);
  }

  lemma SearchFails(a: seq<Node>, level: int, length: int, z: Focus, maxLevel: nat, k: nat, s: nat, shape: Tree)
    requires Here(a, 0, level, length, z, maxLevel)
    requires Pending(z, k, s, shape) && Fit(z.t, z.h, k, s).None?
    ensures Fit(shape, maxLevel, k, s).None?
  {
  }

  lemma NoRoomHere(a: seq<Node>, index: int, level: int, length: int, z: Focus, maxLevel: nat, k: nat, s: nat)
    requires Here(a, index, level, length, z, maxLevel) && k <= z.h && !z.t.Vacant?
    requires a[index].state != Split || length == Pow2(k)
    ensures Fit(z.t, z.h, k, s).None?
  {
    if a[index].state != Split {
      ClosedHasNoRoom(z.t, z.h, k, s);
    } else {
      Pow2Injective(z.h, k);
    }
  }

  /** Marking the free focus USED. */
  lemma StepFound(a: seq<Node>, index: int, level: int, length: int, z: Focus, maxLevel: nat, k: nat, s: nat,
      goal: Option<Placed>)
    requires Here(a, index, level, length, z, maxLevel) && OnTarget(z, k, s, goal) && length == Pow2(k) && index < |a|
    ensures var b := a[index := Node(length, s, Used)];
      && Repr(b, index, z.h, Block(s))
      && ReprCtx(b, index, z.h, z.c, false)
      && Closed(Block(s))
    ensures goal == Some(Placed(Plug(z.c, Block(s)), Off(z.c, z.h)))
    ensures Pow2(level) <= index + 1 && 0 <= level <= maxLevel
    ensures (index + 1 - Pow2(level)) * Pow2(maxLevel - level) == Off(z.c, z.h)
  {
    Pow2Injective(z.h, k);
    SetFocus(a, index, Node(length, s, Used), z.h, z.c, false);
    Position(a, index, z.h, z.c, false);
  }

  /** What first fit in the tree says about the live blocks. */
  lemma FirstFit(shape: Tree, maxLevel: nat, k: nat, s: nat, n: nat)
    requires Canonical(shape, maxLevel) && k <= maxLevel && n == Pow2(k)
    ensures var live, goal := Blocks(shape, maxLevel, 0), Fit(shape, maxLevel, k, s);
      && (goal.None? ==> NoFit(live, n, Pow2(maxLevel)))
      && (goal.Some? ==>
            && LowestFit(live, goal.value.at, n, Pow2(maxLevel))
            && Canonical(goal.value.tree, maxLevel)
            && Blocks(goal.value.tree, maxLevel, 0) == live[goal.value.at := Entry(n, s)])
  {
    var live := Blocks(shape, maxLevel, 0);
    AllocCorrect(shape, maxLevel, k, s, 0);
    forall o: nat
      ensures Fits(live, o, Pow2(k), Pow2(maxLevel)) <==> Slot(o, maxLevel, k) && FreeRun(live, 0 + o, Pow2(k))
      ensures Slot(o, maxLevel, k) ==> o < Pow2(maxLevel)
    {
      SlotIsAligned(o, maxLevel, k);
    }
  }

  lemma SizeExponent(s: nat, maxLevel: nat) returns (k: nat)
    requires maxLevel <= MAX_LEVEL && BlockPages(s) <= Pow2(maxLevel)
    ensures k <= maxLevel && BlockPages(s) == Pow2(k)
  {
    if s > Pow2(44) {
      HugeRequest(s);
      Pow2Monotone(maxLevel, 32);
    }
    BlockCoversRequest(s);
    k :| BlockPages(s) == Pow2(k);
    if k > maxLevel {
      Pow2Monotone(maxLevel, k);
    }
  }
}
