/** The steps of coalescing and of the descent by offset, one lemma each. */
module BuddyRelease {
  import opened Powers
  import opened BuddyTree
  import opened BuddyCursor
  import opened BuddyArray
  import opened BuddySearch

  // ----- coalescing -----

  /** Climbing past a free sibling changes nothing about the tree to be left behind. */
  lemma ClimbFree(a: seq<Node>, i: nat, h: nat, c: Ctx, closed: bool)
    requires ReprCtx(a, i, h, c, closed) && !c.Top? && c.sibling.Vacant?
    ensures ReprCtx(a, (i + 1) / 2 - 1, h + 1, c.up, false)
    ensures MergePlug(c.up, Vacant) == MergePlug(c, Vacant)
    ensures h + Depth(c) == h + 1 + Depth(c.up)
  {
  }

  /** At the top of the climb the node itself becomes UNUSED. */
  lemma FreeFocus(a: seq<Node>, i: nat, h: nat, c: Ctx, closed: bool)
    requires i < |a| && ReprCtx(a, i, h, c, closed) && (c.Top? || !c.sibling.Vacant?)
    ensures var b := a[i := a[i].(state := Unused)];
      Repr(b, i, h, Vacant) && ReprCtx(b, i, h, c, closed)
    ensures MergePlug(c, Vacant) == Plug(c, Vacant) && !Closed(Vacant)
  {
    SetFocus(a, i, a[i].(state := Unused), h, c, closed);
    InnerStaysPut(c, Vacant);
  }

  /** Unmarking a FULL parent moves the open focus up. */
  lemma OpenParent(a: seq<Node>, i: nat, h: nat, c: Ctx, t: Tree, closed: bool, p: nat)
    requires Repr(a, i, h, t) && !Closed(t) && ReprCtx(a, i, h, c, closed)
    requires i > 0 && p == (i + 1) / 2 - 1 && p < |a| && a[p].state == Full
    ensures !c.Top?
    ensures var b := a[p := a[p].(state := Split)];
      && Repr(b, p, h + 1, Join(c, t))
      && ReprCtx(b, p, h + 1, c.up, true)
    ensures !Closed(Join(c, t)) && Plug(c.up, Join(c, t)) == Plug(c, t)
    ensures h + Depth(c) == h + 1 + Depth(c.up)
  {
    LookAround(a, i, h, c, closed);
    SetParent(a, i, h, c, t, closed, p, a[p := a[p].(state := Split)]);
  }

  /** A parent that is not FULL ends the unmarking. */
  lemma Settled(a: seq<Node>, i: nat, h: nat, c: Ctx, t: Tree, closed: bool)
    requires Repr(a, i, h, t) && !Closed(t) && ReprCtx(a, i, h, c, closed)
    requires i > 0 ==> a[(i + 1) / 2 - 1].state != Full
    ensures Repr(a, 0, h + Depth(c), Plug(c, t))
  {
    LookAround(a, i, h, c, closed);
    assert ReprCtx(a, i, h, c, false);
    PlugRepr(a, i, h, c, t);
  }

  // ----- descending -----

  /** The loop variables of a descent towards page `offset`. */
  ghost predicate Descending(a: seq<Node>, index: nat, left: nat, length: nat, z: Focus, shape: Tree, maxLevel: nat,
      offset: nat) {
    && |a| == Pow2(maxLevel + 1) - 1
    && z.h + Depth(z.c) == maxLevel
    && length == Pow2(z.h)
    && left == Off(z.c, z.h)
    && left <= offset < left + length
    && offset in Blocks(shape, maxLevel, 0)
    && Plug(z.c, z.t) == shape
    && Repr(a, index, z.h, z.t)
    && ReprCtx(a, index, z.h, z.c, Closed(z.t))
  }

  lemma StartDescent(a: seq<Node>, shape: Tree, maxLevel: nat, offset: nat)
    requires |a| == Pow2(maxLevel + 1) - 1 && Repr(a, 0, maxLevel, shape)
    requires offset in Blocks(shape, maxLevel, 0)
    ensures Descending(a, 0, 0, Pow2(maxLevel), Focus(maxLevel, Top, shape), shape, maxLevel, offset)
  {
    BlocksWithin(shape, maxLevel, 0);
  }

  /** The descent ends at a USED node, exactly at the block; it never meets an UNUSED one. */
  lemma DescentState(a: seq<Node>, index: nat, left: nat, length: nat, z: Focus, shape: Tree, maxLevel: nat,
      offset: nat)
    requires Descending(a, index, left, length, z, shape, maxLevel, offset)
    ensures index < |a| && a[index].state != Unused
    ensures a[index].state == Used ==>
      && z.t == Block(a[index].used) && a[index].pages == length
      && left == offset
      && Blocks(shape, maxLevel, 0)[offset] == Entry(length, a[index].used)
    ensures a[index].state != Used ==> z.h > 0 && z.t.Inner?
  {
    BlockInFocus(z.c, z.t, z.h, offset);
  }

  function Chosen(z: Focus, goLeft: bool): Focus
    requires z.t.Inner? && z.h > 0
  {
    if goLeft then Focus(z.h - 1, Left(z.c, z.t.right), z.t.left)
    else Focus(z.h - 1, Right(z.c, z.t.left), z.t.right)
  }

  lemma StepDescent(a: seq<Node>, index: nat, left: nat, length: nat, z: Focus, shape: Tree, maxLevel: nat, offset: nat)
    requires Descending(a, index, left, length, z, shape, maxLevel, offset)
    requires z.t.Inner? && z.h > 0
    ensures var half := length / 2;
      if offset < left + half
      then Descending(a, index * 2 + 1, left, half, Chosen(z, true), shape, maxLevel, offset)
      else Descending(a, index * 2 + 2, left + half, half, Chosen(z, false), shape, maxLevel, offset)
  {
    Descend(a, index, z.h, z.c, z.t);
  }

  /** Releasing the block the descent ends at. */
  lemma ReleaseFocus(a: seq<Node>, index: nat, left: nat, length: nat, z: Focus, shape: Tree, maxLevel: nat,
      offset: nat)
    requires Descending(a, index, left, length, z, shape, maxLevel, offset)
    requires Canonical(shape, maxLevel) && z.t.Block? && left == offset
    ensures ReprCtx(a, index, z.h, z.c, true) && z.h + Depth(z.c) == maxLevel
    ensures Canonical(MergePlug(z.c, Vacant), maxLevel)
    ensures Blocks(MergePlug(z.c, Vacant), maxLevel, 0) == Blocks(shape, maxLevel, 0) - {offset}
  {
    ReleaseCorrect(z.c, z.t.used, z.h);
  }
}
