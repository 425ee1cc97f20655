/** How the node array of struct buddy represents a tree: children of node i are
    2i + 1 and 2i + 2, and nothing is assumed below UNUSED and USED nodes. */
module BuddyArray {
  import opened Powers
  import opened BuddyTree
  import opened BuddyCursor

  datatype State = Unused | Used | Split | Full

  datatype Node = Node(pages: nat, used: nat, state: State)

  function InnerState(closed: bool): State {
    if closed then Full else Split
  }

  ghost predicate Repr(a: seq<Node>, i: nat, h: nat, t: Tree)
    decreases t
  {
    && i < |a|
    && match t
       case Vacant => a[i].state == Unused
       case Block(u) => a[i] == Node(Pow2(h), u, Used)
       case Inner(l, r) =>
         && h > 0
         && a[i].state == InnerState(Closed(l) && Closed(r))
         && Repr(a, 2 * i + 1, h - 1, l)
         && Repr(a, 2 * i + 2, h - 1, r)
  }

  /** The nodes around node `i`, whose subtree counts as closed or not. */
  ghost predicate ReprCtx(a: seq<Node>, i: nat, h: nat, c: Ctx, closed: bool)
    decreases c, 1
  {
    match c
    case Top => i == 0
    case Left(up, s) =>
      && i % 2 == 1
      && ReprUp(a, (i - 1) / 2, i + 1, h, c, closed)
    case Right(up, s) =>
      && i % 2 == 0 && i > 0
      && ReprUp(a, (i - 1) / 2, i - 1, h, c, closed)
  }

  ghost predicate ReprUp(a: seq<Node>, p: nat, sib: nat, h: nat, c: Ctx, closed: bool)
    requires !c.Top?
    decreases c, 0
  {
    && p < |a|
    && a[p].state == InnerState(closed && Closed(c.sibling))
    && Repr(a, sib, h, c.sibling)
    && ReprCtx(a, p, h + 1, c.up, closed && Closed(c.sibling))
  }

  // ----- framing -----

  predicate InSubtree(i: nat, k: nat) {
    k == i || (k > i && InSubtree(i, (k - 1) / 2))
  }

  lemma {:induction false} ChildSubtree(i: nat, c: nat, k: nat)
    requires c == 2 * i + 1 || c == 2 * i + 2
    ensures InSubtree(c, k) ==> InSubtree(i, k) && k > i
    decreases k
  {
    if k > c {
      ChildSubtree(i, c, (k - 1) / 2);
    }
  }

  lemma {:induction false} SiblingSubtrees(i: nat, k: nat)
    ensures !(InSubtree(2 * i + 1, k) && InSubtree(2 * i + 2, k))
    decreases k
  {
    if k > 2 * i + 2 {
      SiblingSubtrees(i, (k - 1) / 2);
    }
  }

  /** Two arrays that agree on a subtree represent the same trees there. */
  lemma {:induction false} ReprFrame(a: seq<Node>, b: seq<Node>, i: nat, h: nat, t: Tree)
    requires Repr(a, i, h, t) && |a| == |b|
    requires forall k :: i <= k < |a| && InSubtree(i, k) ==> a[k] == b[k]
    ensures Repr(b, i, h, t)
    decreases t
  {
    if t.Inner? {
      forall k | 2 * i + 1 <= k < |a|
        ensures InSubtree(2 * i + 1, k) || InSubtree(2 * i + 2, k) ==> a[k] == b[k]
      {
        ChildSubtree(i, 2 * i + 1, k);
        ChildSubtree(i, 2 * i + 2, k);
      }
      ReprFrame(a, b, 2 * i + 1, h - 1, t.left);
      ReprFrame(a, b, 2 * i + 2, h - 1, t.right);
    }
  }

  /** Two arrays that agree outside a subtree represent the same surroundings of it. */
  lemma {:induction false} ReprCtxFrame(a: seq<Node>, b: seq<Node>, i: nat, h: nat, c: Ctx, closed: bool)
    requires ReprCtx(a, i, h, c, closed) && |a| == |b|
    requires forall k :: 0 <= k < |a| && !InSubtree(i, k) ==> a[k] == b[k]
    ensures ReprCtx(b, i, h, c, closed)
    decreases c
  {
    if !c.Top? {
      var p := (i - 1) / 2;
      var sib := if c.Left? then i + 1 else i - 1;
      forall k | 0 <= k < |a| && (!InSubtree(p, k) || InSubtree(sib, k) || k == p)
        ensures a[k] == b[k]
      {
        ChildSubtree(p, i, k);
        SiblingSubtrees(p, k);
      }
      ReprFrame(a, b, sib, h, c.sibling);
      ReprCtxFrame(a, b, p, h + 1, c.up, closed && Closed(c.sibling));
    }
  }

  /** Focus and surroundings together represent the whole tree. */
  lemma {:induction false} PlugRepr(a: seq<Node>, i: nat, h: nat, c: Ctx, t: Tree)
    requires Repr(a, i, h, t) && ReprCtx(a, i, h, c, Closed(t))
    ensures Repr(a, 0, h + Depth(c), Plug(c, t))
    decreases c
  {
    match c
    case Top =>
    case Left(up, s) => PlugRepr(a, (i - 1) / 2, h + 1, up, Inner(t, s));
    case Right(up, s) => PlugRepr(a, (i - 1) / 2, h + 1, up, Inner(s, t));
  }

  // ----- positions -----

  lemma OffsetBelow(p: nat, d: nat, y: nat, z: nat)
    ensures (p + 1 - d) * (2 * y) + z * y == ((2 * p + 1 + z) + 1 - 2 * d) * y
  {
    var x := p + 1 - d;
    assert x * (2 * y) == (2 * x) * y;
    assert (2 * x + z) * y == (2 * x) * y + z * y;
  }

  /** Node numbers against levels and page offsets, as _index_offset relates them. */
  lemma {:induction false} Position(a: seq<Node>, i: nat, h: nat, c: Ctx, closed: bool)
    requires ReprCtx(a, i, h, c, closed)
    ensures Pow2(Depth(c)) <= i + 1 < 2 * Pow2(Depth(c))
    ensures Off(c, h) == (i + 1 - Pow2(Depth(c))) * Pow2(h)
    decreases c
  {
    if !c.Top? {
      var p := (i - 1) / 2;
      var z := if c.Left? then 0 else 1;
      assert i == 2 * p + 1 + z;
      Position(a, p, h + 1, c.up, closed && Closed(c.sibling));
      Pow2Double(h);
      hide Pow2;
      OffsetBelow(p, Pow2(Depth(c.up)), Pow2(h), z);
    }
  }

  lemma ChildrenExist(a: seq<Node>, i: nat, h: nat, c: Ctx, closed: bool)
    requires ReprCtx(a, i, h, c, closed) && |a| == Pow2(h + Depth(c) + 1) - 1
    ensures i < |a| && (h > 0 ==> 2 * i + 2 < |a|)
  {
    Position(a, i, h, c, closed);
    Pow2Monotone(Depth(c), h + Depth(c));
  }

  // ----- one step of a loop -----

  function Join(c: Ctx, t: Tree): Tree
    requires !c.Top?
  {
    if c.Left? then Inner(t, c.sibling) else Inner(c.sibling, t)
  }

  lemma StateOfClosed(a: seq<Node>, i: nat, h: nat, t: Tree)
    requires Repr(a, i, h, t)
    ensures Closed(t) <==> a[i].state == Used || a[i].state == Full
    ensures t.Vacant? <==> a[i].state == Unused
    ensures t.Block? <==> a[i].state == Used
  {
  }

  /** What the sibling and the parent of the focus look like in the array. */
  lemma LookAround(a: seq<Node>, i: nat, h: nat, c: Ctx, closed: bool)
    requires ReprCtx(a, i, h, c, closed)
    ensures c.Top? <==> i == 0
    ensures !c.Top? ==> var buddy, p := i - 1 + (i % 2) * 2, (i + 1) / 2 - 1;
      && 0 < buddy < |a| && 0 <= p < |a|
      && (Closed(c.sibling) <==> a[buddy].state == Used || a[buddy].state == Full)
      && (c.sibling.Vacant? <==> a[buddy].state == Unused)
      && (a[p].state == Full <==> closed && Closed(c.sibling))
      && Depth(c) == Depth(c.up) + 1
    ensures c.Top? || !Closed(c.sibling) ==> ReprCtx(a, i, h, c, !closed)
  {
  }

  /** Writing the right state into the parent moves the focus up, whatever stood there. */
  lemma SetParent(a: seq<Node>, i: nat, h: nat, c: Ctx, t: Tree, closed: bool, p: nat, b: seq<Node>)
    requires !c.Top? && Repr(a, i, h, t) && ReprCtx(a, i, h, c, closed)
    requires p == (i + 1) / 2 - 1 && p < |a|
    requires b == a[p := a[p].(state := InnerState(Closed(t) && Closed(c.sibling)))]
    ensures Repr(b, p, h + 1, Join(c, t))
    ensures ReprCtx(b, p, h + 1, c.up, closed && Closed(c.sibling))
    ensures Plug(c.up, Join(c, t)) == Plug(c, t)
    ensures Closed(Join(c, t)) <==> Closed(t) && Closed(c.sibling)
  {
    assert p == (i - 1) / 2;
    var sib := if c.Left? then i + 1 else i - 1;
    ReprFrame(a, b, i, h, t);
    ReprFrame(a, b, sib, h, c.sibling);
    ReprCtxFrame(a, b, p, h + 1, c.up, closed && Closed(c.sibling));
  }

  /** Writing the focused node itself leaves the surroundings alone. */
  lemma SetFocus(a: seq<Node>, i: nat, n: Node, h: nat, c: Ctx, closed: bool)
    requires i < |a| && ReprCtx(a, i, h, c, closed)
    ensures ReprCtx(a[i := n], i, h, c, closed)
  {
    ReprCtxFrame(a, a[i := n], i, h, c, closed);
  }

  /** What the search writes when it splits node `i`. */
  function SplitNode(a: seq<Node>, i: nat): seq<Node>
    requires 2 * i + 2 < |a|
  {
    a[i := a[i].(state := Split)]
      [2 * i + 1 := a[2 * i + 1].(state := Unused)]
      [2 * i + 2 := a[2 * i + 2].(state := Unused)]
  }

  /** Splitting a free node puts the focus on its left half. */
  lemma SplitFocus(a: seq<Node>, b: seq<Node>, i: nat, h: nat, c: Ctx)
    requires Repr(a, i, h, Vacant) && ReprCtx(a, i, h, c, false) && h > 0 && 2 * i + 2 < |a|
    requires b == SplitNode(a, i)
    ensures Repr(b, 2 * i + 1, h - 1, Vacant)
    ensures ReprCtx(b, 2 * i + 1, h - 1, Left(c, Vacant), false)
  {
    assert InSubtree(i, 2 * i + 1) && InSubtree(i, 2 * i + 2);
    ReprCtxFrame(a, b, i, h, c, false);
  }

  lemma UnderParent(a: seq<Node>, i: nat, h: nat, c: Ctx, sibling: Tree, closed: bool)
    requires h > 0 && i < |a| && a[i].state == InnerState(closed && Closed(sibling))
    requires ReprCtx(a, i, h, c, closed && Closed(sibling))
    ensures Repr(a, 2 * i + 2, h - 1, sibling) ==> ReprCtx(a, 2 * i + 1, h - 1, Left(c, sibling), closed)
    ensures Repr(a, 2 * i + 1, h - 1, sibling) ==> ReprCtx(a, 2 * i + 2, h - 1, Right(c, sibling), closed)
  {
    hide Repr, Closed;
    if Repr(a, 2 * i + 2, h - 1, sibling) {
      assert ReprUp(a, i, 2 * i + 2, h - 1, Left(c, sibling), closed);
    }
    if Repr(a, 2 * i + 1, h - 1, sibling) {
      assert ReprUp(a, i, 2 * i + 1, h - 1, Right(c, sibling), closed);
    }
  }

  lemma Descend(a: seq<Node>, i: nat, h: nat, c: Ctx, t: Tree)
    requires t.Inner? && Repr(a, i, h, t) && ReprCtx(a, i, h, c, Closed(t))
    ensures ReprCtx(a, 2 * i + 1, h - 1, Left(c, t.right), Closed(t.left))
    ensures ReprCtx(a, 2 * i + 2, h - 1, Right(c, t.left), Closed(t.right))
  {
    hide ReprCtx;
    UnderParent(a, i, h, c, t.right, Closed(t.left));
    UnderParent(a, i, h, c, t.left, Closed(t.right));
  }

  lemma ToSibling(a: seq<Node>, i: nat, h: nat, c: Ctx, t: Tree)
    requires c.Left? && Repr(a, i, h, t) && ReprCtx(a, i, h, c, Closed(t))
    ensures Repr(a, i + 1, h, c.sibling)
    ensures ReprCtx(a, i + 1, h, Right(c.up, t), Closed(c.sibling))
  {
  }

  lemma Ascend(a: seq<Node>, i: nat, h: nat, c: Ctx, t: Tree)
    requires !c.Top? && Repr(a, i, h, t) && ReprCtx(a, i, h, c, Closed(t))
    ensures Repr(a, (i - 1) / 2, h + 1, Join(c, t))
    ensures ReprCtx(a, (i - 1) / 2, h + 1, c.up, Closed(Join(c, t)))
  {
  }

  // ----- what the live blocks say about the array -----

  /** Surroundings fix the array only up to stale nodes: two arrays for one tree agree
      on every node reachable through SPLIT and FULL. */
  ghost predicate SameReachable(a: seq<Node>, b: seq<Node>, i: nat, h: nat)
    decreases h
  {
    && i < |a| && i < |b|
    && a[i].state == b[i].state
    && (a[i].state == Used ==> a[i] == b[i])
    && (a[i].state in {Split, Full} ==>
          h > 0 && SameReachable(a, b, 2 * i + 1, h - 1) && SameReachable(a, b, 2 * i + 2, h - 1))
  }

  lemma {:induction false} ReprDeterminesReachable(a: seq<Node>, b: seq<Node>, i: nat, h: nat, t: Tree)
    requires Repr(a, i, h, t) && Repr(b, i, h, t)
    ensures SameReachable(a, b, i, h)
    decreases t
  {
    if t.Inner? {
      ReprDeterminesReachable(a, b, 2 * i + 1, h - 1, t.left);
      ReprDeterminesReachable(a, b, 2 * i + 2, h - 1, t.right);
    }
  }
}
