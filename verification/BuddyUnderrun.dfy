/** buddy_free as C compiles it. The nodes are packed, so `tree` starts right after the level
    byte, and the state of the node before the array is that byte. Since `index` is a uint64_t,
    the loop that reopens FULL ancestors goes on from the root to that node. */
module BuddyUnderrun {
  import opened Powers
  import opened Sizing
  import opened BuddyTree
  import opened BuddyCursor
  import opened BuddyArray
  import opened BuddySearch
  import opened BuddyRelease
  import opened BuddyWrap

  const NODE_SPLIT: nat := 2
  const NODE_FULL: nat := 3

  /** struct buddy: the level byte and the nodes behind it. */
  datatype Bytes = Bytes(level: nat, tree: seq<Node>)

  const BEFORE: nat := WORD - 1

  predicate IsNode(m: Bytes, index: nat) {
    index < |m.tree| || index == BEFORE
  }

  predicate IsFull(m: Bytes, index: nat)
    requires IsNode(m, index)
  {
    if index < |m.tree| then m.tree[index].state == Full else m.level == NODE_FULL
  }

  function SetSplit(m: Bytes, index: nat): Bytes
    requires IsNode(m, index)
  {
    if index < |m.tree| then m.(tree := m.tree[index := m.tree[index].(state := Split)]) else m.(level := NODE_SPLIT)
  }

  /** The loop of line 187: its first test holds of every index. */
  function Unmark(m: Bytes, index: nat): Bytes
    requires IsNode(m, index) && |m.tree| < BEFORE
    decreases if index == BEFORE then 0 else index + 1, if m.level == NODE_FULL then 1 else 0
  {
    UpFrom(index);
    var p := Up(index);
    if p >= 0 && IsFull(m, p) then Unmark(SetSplit(m, p), p) else m
  }

  lemma UpFrom(index: nat)
    ensures index == 0 || index == BEFORE ==> Up(index) == BEFORE
    ensures 0 < index < BEFORE ==> Up(index) == (index + 1) / 2 - 1 < index
  {
  }

  /** _combine */
  function Combined(m: Bytes, index: nat): Bytes
    requires index < |m.tree| < BEFORE && |m.tree| % 2 == 1
    decreases index
  {
    UpFrom(index);
    var buddy := index - 1 + (index % 2) * 2;
    if buddy < 0 || m.tree[buddy].state != Unused then
      Unmark(m.(tree := m.tree[index := m.tree[index].(state := Unused)]), index)
    else Combined(m, Up(index))
  }

  /** The descent of buddy_free to the USED node, if it meets one. */
  function Target(a: seq<Node>, index: nat, left: nat, length: nat, offset: nat): Option<nat>
    decreases |a| - index
  {
    if index >= |a| then None
    else match a[index].state
      case Used => Some(index)
      case Unused => None
      case _ =>
        if offset < left + length / 2 then Target(a, index * 2 + 1, left, length / 2, offset)
        else Target(a, index * 2 + 2, left + length / 2, length / 2, offset)
  }

  /** buddy_free, for a page offset. */
  function Freed(m: Bytes, page: nat): Bytes
    requires |m.tree| < BEFORE && |m.tree| % 2 == 1
  {
    match Target(m.tree, 0, 0, Pow2(m.level), page)
    case Some(index) => TargetInside(m.tree, 0, 0, Pow2(m.level), page); Combined(m, index)
    case None => m
  }

  lemma {:induction false} TargetInside(a: seq<Node>, index: nat, left: nat, length: nat, offset: nat)
    ensures var t := Target(a, index, left, length, offset); t.Some? ==> t.value < |a| && a[t.value].state == Used
    decreases |a| - index
  {
    if index < |a| {
      TargetInside(a, index * 2 + 1, left, length / 2, offset);
      TargetInside(a, index * 2 + 2, left + length / 2, length / 2, offset);
    }
  }

  // ----- reopening -----

  /** Every ancestor of the focus is FULL, so the loop passes the root. */
  predicate AllFull(c: Ctx, closed: bool) {
    c.Top? || (closed && Closed(c.sibling) && AllFull(c.up, true))
  }

  function LevelAfter(level: nat, passes: bool): nat {
    if passes && level == NODE_FULL then NODE_SPLIT else level
  }

  lemma PastRoot(m: Bytes)
    requires 0 < |m.tree| < BEFORE
    ensures Unmark(m, 0) == m.(level := LevelAfter(m.level, true))
  {
    UpFrom(0);
    UpFrom(BEFORE);
    if m.level == NODE_FULL {
      assert Unmark(m, 0) == Unmark(m.(level := NODE_SPLIT), BEFORE);
    }
  }

  lemma UnmarkStep(m: Bytes, i: nat)
    requires 0 < i < |m.tree| < BEFORE
    ensures var p := (i + 1) / 2 - 1;
      Unmark(m, i) == if m.tree[p].state == Full then Unmark(SetSplit(m, p), p) else m
  {
    UpFrom(i);
  }

  lemma {:induction false} UnmarkAll(m: Bytes, i: nat, h: nat, c: Ctx, t: Tree, closed: bool)
    requires i < |m.tree| < BEFORE
    requires Repr(m.tree, i, h, t) && !Closed(t) && ReprCtx(m.tree, i, h, c, closed)
    ensures var m' := Unmark(m, i);
      && |m'.tree| == |m.tree| && Repr(m'.tree, 0, h + Depth(c), Plug(c, t))
      && m'.level == LevelAfter(m.level, AllFull(c, closed))
    decreases c
  {
    hide Repr, ReprCtx, Closed, Plug, Unmark;
    LookAround(m.tree, i, h, c, closed);
    if c.Top? {
      PastRoot(m);
      Settled(m.tree, i, h, c, t, closed);
    } else {
      UnmarkStep(m, i);
      var p := (i + 1) / 2 - 1;
      if m.tree[p].state == Full {
        OpenParent(m.tree, i, h, c, t, closed, p);
        UnmarkAll(SetSplit(m, p), p, h + 1, c.up, Join(c, t), true);
      } else {
        Settled(m.tree, i, h, c, t, closed);
      }
    }
  }

  // ----- coalescing -----

  /** The release of the focus passes the root: it coalesces up to it, or finds only FULL
      ancestors. */
  predicate Passes(c: Ctx, closed: bool) {
    if c.Top? then true else if c.sibling.Vacant? then Passes(c.up, false) else AllFull(c, closed)
  }

  lemma {:induction false} CombinedAll(m: Bytes, i: nat, h: nat, c: Ctx, closed: bool)
    requires i < |m.tree| < BEFORE && |m.tree| % 2 == 1 && ReprCtx(m.tree, i, h, c, closed)
    ensures var m' := Combined(m, i);
      && Repr(m'.tree, 0, h + Depth(c), MergePlug(c, Vacant))
      && m'.level == LevelAfter(m.level, Passes(c, closed))
    decreases c
  {
    hide Repr, ReprCtx, Closed, Plug, MergePlug, Unmark;
    LookAround(m.tree, i, h, c, closed);
    UpFrom(i);
    if !c.Top? && c.sibling.Vacant? {
      ClimbFree(m.tree, i, h, c, closed);
      CombinedAll(m, (i + 1) / 2 - 1, h + 1, c.up, false);
    } else {
      FreeFocus(m.tree, i, h, c, closed);
      UnmarkAll(m.(tree := m.tree[i := m.tree[i].(state := Unused)]), i, h, c, Vacant, closed);
    }
  }

  /** In terms of the tree: the arena was full, or it is now free. */
  lemma PassesWhen(c: Ctx, t: Tree)
    requires Closed(t)
    ensures Passes(c, true) <==> Closed(Plug(c, t)) || MergePlug(c, Vacant).Vacant?
  {
    PlugClosed(c, t);
    MergeVacant(c);
  }

  lemma {:induction false} PlugClosed(c: Ctx, t: Tree)
    ensures Closed(Plug(c, t)) <==> Closed(t) && AllFull(c, true)
    decreases c
  {
    match c
    case Top =>
    case Left(up, s) => PlugClosed(up, Inner(t, s));
    case Right(up, s) => PlugClosed(up, Inner(s, t));
  }

  lemma {:induction false} MergeVacant(c: Ctx)
    ensures MergePlug(c, Vacant).Vacant? <==> Passes(c, false)
    ensures Passes(c, true) <==> AllFull(c, true) || Passes(c, false)
    decreases c
  {
    if !c.Top? {
      if c.sibling.Vacant? {
        MergeVacant(c.up);
      } else {
        InnerStaysPut(c, Vacant);
        PlugNotVacant(c.up, Join(c, Vacant));
      }
    }
  }

  lemma {:induction false} PlugNotVacant(c: Ctx, t: Tree)
    requires !t.Vacant?
    ensures !Plug(c, t).Vacant?
    decreases c
  {
    match c
    case Top =>
    case Left(up, s) => PlugNotVacant(up, Inner(t, s));
    case Right(up, s) => PlugNotVacant(up, Inner(s, t));
  }

  // ----- the whole release -----

  /** The descent ends at the USED node of the block. */
  lemma {:induction false} TargetFound(a: seq<Node>, index: nat, left: nat, length: nat, z: Focus, shape: Tree,
      maxLevel: nat, page: nat) returns (i: nat, y: Focus)
    requires Descending(a, index, left, length, z, shape, maxLevel, page)
    ensures Target(a, index, left, length, page) == Some(i) && i < |a| && a[i].state == Used
    ensures Descending(a, i, page, Pow2(y.h), y, shape, maxLevel, page) && Plug(y.c, y.t) == shape
    decreases z.h
  {
    hide Descending, Pow2, Plug;
    DescentState(a, index, left, length, z, shape, maxLevel, page);
    if a[index].state == Used {
      LengthIs(a, index, left, length, z, shape, maxLevel, page);
      i, y := index, z;
    } else {
      StepDescent(a, index, left, length, z, shape, maxLevel, page);
      if page < left + length / 2 {
        i, y := TargetFound(a, index * 2 + 1, left, length / 2, Chosen(z, true), shape, maxLevel, page);
      } else {
        i, y := TargetFound(a, index * 2 + 2, left + length / 2, length / 2, Chosen(z, false), shape, maxLevel, page);
      }
    }
  }

  lemma LengthIs(a: seq<Node>, index: nat, left: nat, length: nat, z: Focus, shape: Tree, maxLevel: nat, page: nat)
    requires Descending(a, index, left, length, z, shape, maxLevel, page)
    ensures length == Pow2(z.h) && Plug(z.c, z.t) == shape
  {
  }

  lemma PassesAt(a: seq<Node>, z: Focus, shape: Tree, maxLevel: nat, page: nat)
    requires Plug(z.c, z.t) == shape && z.t.Block? && Repr(a, 0, maxLevel, shape) && page in Blocks(shape, maxLevel, 0)
    requires |a| > 0 && Canonical(MergePlug(z.c, Vacant), maxLevel)
    requires Blocks(MergePlug(z.c, Vacant), maxLevel, 0) == Blocks(shape, maxLevel, 0) - {page}
    ensures Passes(z.c, true) <==> a[0].state in {Used, Full} || Blocks(shape, maxLevel, 0).Keys == {page}
  {
    hide Repr, Canonical, Plug, MergePlug, Passes;
    PassesWhen(z.c, z.t);
    StateOfClosed(a, 0, maxLevel, shape);
    var rest := Blocks(shape, maxLevel, 0) - {page};
    if !MergePlug(z.c, Vacant).Vacant? {
      NotFreeHasBlock(MergePlug(z.c, Vacant), maxLevel, 0);
      var b :| b in rest;
      assert b in Blocks(shape, maxLevel, 0).Keys && b != page;
    } else {
      assert forall b :: b in Blocks(shape, maxLevel, 0) && b != page ==> b in rest;
    }
  }

  /** The release a caller means: the level stays, and the nodes hold the other blocks. */
  ghost predicate AsMeant(m: Bytes, m': Bytes, shape: Tree, page: nat) {
    m'.level == m.level && exists t: Tree :: Holds(m'.tree, m.level, t, Blocks(shape, m.level, 0) - {page})
  }

  ghost predicate Holds(a: seq<Node>, level: nat, t: Tree, live: map<nat, Entry>) {
    Canonical(t, level) && Repr(a, 0, level, t) && Blocks(t, level, 0) == live
  }

  lemma Sizes(level: nat)
    requires level <= MAX_LEVEL
    ensures 0 < Pow2(level + 1) - 1 < BEFORE && (Pow2(level + 1) - 1) % 2 == 1
  {
    Pow2Constants();
    Pow2Monotone(level + 1, 32);
  }

  /** The compiled release is the one that is meant if and only if the arena has not exactly
      8 pages, or it was not full and other blocks remain; otherwise it ends up with 4 pages. */
  lemma CompiledFree(m: Bytes, shape: Tree, page: nat)
    requires m.level <= MAX_LEVEL && |m.tree| == Pow2(m.level + 1) - 1
    requires Canonical(shape, m.level) && Repr(m.tree, 0, m.level, shape) && page in Blocks(shape, m.level, 0)
    ensures 0 < |m.tree| < BEFORE && |m.tree| % 2 == 1
    ensures var full := m.tree[0].state in {Used, Full};
      var m' := Freed(m, page);
      && (AsMeant(m, m', shape, page) <==> !(m.level == 3 && (full || Blocks(shape, m.level, 0).Keys == {page})))
      && (!AsMeant(m, m', shape, page) ==> m'.level == 2)
  {
    hide Repr, ReprCtx, Canonical, Blocks, Descending, Pow2, Plug, MergePlug, Depth, Combined, Closed, Target, Passes;
    Sizes(m.level);
    StartDescent(m.tree, shape, m.level, page);
    var i, z := TargetFound(m.tree, 0, 0, Pow2(m.level), Focus(m.level, Top, shape), shape, m.level, page);
    DescentState(m.tree, i, page, Pow2(z.h), z, shape, m.level, page);
    ReleaseFocus(m.tree, i, page, Pow2(z.h), z, shape, m.level, page);
    CombinedAll(m, i, z.h, z.c, true);
    PassesAt(m.tree, z, shape, m.level, page);
    assert Holds(Combined(m, i).tree, m.level, MergePlug(z.c, Vacant), Blocks(shape, m.level, 0) - {page});
  }

  /** In 8 pages, releasing one block of all pages leaves 4 pages. */
  lemma ArenaHalved(m: Bytes)
    requires m.level == 3 && |m.tree| == 15 && m.tree[0].state == Used
    ensures Freed(m, 0).level == 2 && Freed(m, 0).tree == m.tree[0 := m.tree[0].(state := Unused)]
  {
    assert Target(m.tree, 0, 0, Pow2(3), 0) == Some(0);
    PastRoot(m.(tree := m.tree[0 := m.tree[0].(state := Unused)]));
  }
}
