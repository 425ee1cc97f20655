/** What the contracts of the buddy allocator add up to: the node array, as far as it
    can be reached, is a function of the set of live blocks. */
module BuddyHistory {
  import opened Powers
  import opened BuddyTree
  import opened BuddyCursor
  import opened BuddyArray
  import opened BuddySearch
  import opened Buddy

  /** Live blocks are disjoint, inside the arena, and aligned to their power-of-two size. */
  lemma LiveBlocksPlaced(b: Buddy)
    requires b.Valid()
    ensures Disjoint(b.Live()) && Within(b.Live(), 0, Pow2(b.level))
    ensures forall o :: o in b.Live() ==> IsPow2(b.Live()[o].pages) && o % b.Live()[o].pages == 0
  {
    BlocksDisjoint(b.shape, b.level, 0);
    BlocksWithin(b.shape, b.level, 0);
    forall o | o in b.Live()
      ensures IsPow2(b.Live()[o].pages) && o % b.Live()[o].pages == 0
    {
      assert 0 * Pow2(b.level) == 0;
      BlocksAligned(b.shape, b.level, 0, o);
    }
  }

  /** Any two histories that lead to the same live blocks lead to the same reachable tree. */
  lemma HistoryIndependent(x: Buddy, y: Buddy)
    requires x.Valid() && y.Valid() && x.level == y.level
    ensures x.Live() == y.Live() <==> SameReachable(x.tree[..], y.tree[..], 0, x.level)
  {
    if x.Live() == y.Live() {
      CanonicalIsUnique(x.shape, y.shape, x.level, 0);
      ReprDeterminesReachable(x.tree[..], y.tree[..], 0, x.level, x.shape);
    }
    if SameReachable(x.tree[..], y.tree[..], 0, x.level) {
      ReachableDeterminesTree(x.tree[..], y.tree[..], 0, x.level, x.shape, y.shape);
    }
  }

  lemma {:induction false} ReachableDeterminesTree(a: seq<Node>, b: seq<Node>, i: nat, h: nat, s: Tree, t: Tree)
    requires SameReachable(a, b, i, h) && Repr(a, i, h, s) && Repr(b, i, h, t)
    ensures s == t
    decreases s
  {
    if s.Inner? && t.Inner? {
      ReachableDeterminesTree(a, b, 2 * i + 1, h - 1, s.left, t.left);
      ReachableDeterminesTree(a, b, 2 * i + 2, h - 1, s.right, t.right);
    }
  }

  /** When nothing is live, the root is a single UNUSED node. */
  lemma AllFree(b: Buddy)
    requires b.Valid()
    ensures b.Live() == map[] <==> b.tree.Length > 0 && b.tree[0].state == Unused
  {
    if !b.shape.Vacant? {
      NotFreeHasBlock(b.shape, b.level, 0);
    }
  }

  /** An allocation undone by freeing its block leaves the reachable tree as it was,
      whatever stale states the two leave below it. */
  lemma AllocThenFree(before: Tree, after: Tree, h: nat, k: nat, u: nat, a: seq<Node>, b: seq<Node>)
    requires Canonical(before, h) && Canonical(after, h) && Fit(before, h, k, u).Some?
    requires var p := Fit(before, h, k, u).value;
      Blocks(after, h, 0) == Blocks(p.tree, h, 0) - {p.at}
    requires Repr(a, 0, h, before) && Repr(b, 0, h, after)
    ensures SameReachable(a, b, 0, h)
  {
    AllocCorrect(before, h, k, u, 0);
    var at := Fit(before, h, k, u).value.at;
    BlocksWithin(before, h, 0);
    assert at !in Blocks(before, h, 0);
    assert Blocks(after, h, 0) == Blocks(before, h, 0);
    CanonicalIsUnique(before, after, h, 0);
    ReprDeterminesReachable(a, b, 0, h, before);
  }

  // ----- the node states -----

  /** Node i is reached from the root through SPLIT and FULL nodes only. */
  ghost predicate Reachable(a: seq<Node>, i: nat) {
    i < |a| && (i == 0 || (Reachable(a, (i - 1) / 2) && a[(i - 1) / 2].state in {Split, Full}))
  }

  /** Every reachable node is the focus of some position in the tree. */
  lemma {:induction false} ReachableFocus(a: seq<Node>, i: nat, h: nat, shape: Tree) returns (z: Focus)
    requires Reachable(a, i) && Repr(a, 0, h, shape) && Canonical(shape, h)
    ensures Repr(a, i, z.h, z.t) && ReprCtx(a, i, z.h, z.c, Closed(z.t))
    ensures Plug(z.c, z.t) == shape && z.h + Depth(z.c) == h
    decreases i
  {
    if i == 0 {
      z := Focus(h, Top, shape);
    } else {
      var y := ReachableFocus(a, (i - 1) / 2, h, shape);
      Descend(a, (i - 1) / 2, y.h, y.c, y.t);
      z := if i % 2 == 1 then Focus(y.h - 1, Left(y.c, y.t.right), y.t.left)
           else Focus(y.h - 1, Right(y.c, y.t.left), y.t.right);
    }
  }

  predicate Taken(n: Node) {
    n.state == Used || n.state == Full
  }

  /** FULL marks exactly the split nodes whose halves are both taken; no SPLIT node has
      two UNUSED halves; nodes of the bottom level are never split. */
  lemma ReachableStates(b: Buddy, i: nat)
    requires b.Valid() && Reachable(b.tree[..], i)
    ensures b.tree[i].state in {Split, Full} ==>
      && 2 * i + 2 < b.tree.Length
      && (b.tree[i].state == Full <==> Taken(b.tree[2 * i + 1]) && Taken(b.tree[2 * i + 2]))
      && !(b.tree[2 * i + 1].state == Unused && b.tree[2 * i + 2].state == Unused)
    ensures i + 1 >= Pow2(b.level) ==> b.tree[i].state in {Unused, Used}
  {
    var a := b.tree[..];
    var z := ReachableFocus(a, i, b.level, b.shape);
    CanonicalParts(z.c, z.t, z.h);
    Position(a, i, z.h, z.c, Closed(z.t));
    if z.t.Inner? {
      StateOfClosed(a, 2 * i + 1, z.h - 1, z.t.left);
      StateOfClosed(a, 2 * i + 2, z.h - 1, z.t.right);
      Pow2Monotone(Depth(z.c), b.level);
    }
  }
}
