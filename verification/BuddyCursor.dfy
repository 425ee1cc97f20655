/** A position inside a buddy tree: the subtree in focus, and the path of siblings
    around it. The loops of the allocator walk such positions. */
module BuddyCursor {
  import opened Powers
  import opened BuddyTree

  /** The way from a subtree up to the root; Left(up, s) says the focus is a left child
      whose right sibling is `s`. */
  datatype Ctx = Top | Left(up: Ctx, sibling: Tree) | Right(up: Ctx, sibling: Tree)

  function Depth(c: Ctx): nat {
    if c.Top? then 0 else 1 + Depth(c.up)
  }

  function Plug(c: Ctx, t: Tree): Tree {
    match c
    case Top => t
    case Left(up, s) => Plug(up, Inner(t, s))
    case Right(up, s) => Plug(up, Inner(s, t))
  }

  /** Plug, coalescing free siblings on the way up. */
  function MergePlug(c: Ctx, t: Tree): Tree {
    match c
    case Top => t
    case Left(up, s) => MergePlug(up, Merge(t, s))
    case Right(up, s) => MergePlug(up, Merge(s, t))
  }

  /** The page offset of a focus of height `h`. */
  function Off(c: Ctx, h: nat): nat {
    match c
    case Top => 0
    case Left(up, _) => Off(up, h + 1)
    case Right(up, _) => Off(up, h + 1) + Pow2(h)
  }

  /** First fit has failed in everything before the focus. */
  ghost predicate LeftFailed(c: Ctx, h: nat, k: nat, u: nat) {
    match c
    case Top => true
    case Left(up, _) => LeftFailed(up, h + 1, k, u)
    case Right(up, s) => Fit(s, h, k, u).None? && LeftFailed(up, h + 1, k, u)
  }

  /** The first fit of the whole tree is then the first fit of the focus, if any. */
  lemma {:induction false} AllocAtFocus(c: Ctx, t: Tree, h: nat, k: nat, u: nat)
    requires LeftFailed(c, h, k, u) && k <= h && Fit(t, h, k, u).Some?
    ensures var p := Fit(t, h, k, u).value;
      Fit(Plug(c, t), h + Depth(c), k, u) == Some(Placed(Plug(c, p.tree), Off(c, h) + p.at))
  {
    match c
    case Top =>
    case Left(up, s) => AllocAtFocus(up, Inner(t, s), h + 1, k, u);
    case Right(up, s) => AllocAtFocus(up, Inner(s, t), h + 1, k, u);
  }

  /** Vacant nodes always have room. */
  lemma {:induction false} FreeHasRoom(h: nat, k: nat, u: nat)
    requires k <= h
    ensures Fit(Vacant, h, k, u).Some? && Fit(Vacant, h, k, u).value.at == 0
  {
    if k < h {
      FreeHasRoom(h - 1, k, u);
    }
  }

  /** Closed nodes never have, which is why the search may skip FULL nodes. */
  lemma {:induction false} ClosedHasNoRoom(t: Tree, h: nat, k: nat, u: nat)
    requires Closed(t)
    ensures Fit(t, h, k, u).None?
  {
    if t.Inner? && h > 0 {
      ClosedHasNoRoom(t.left, h - 1, k, u);
      ClosedHasNoRoom(t.right, h - 1, k, u);
    }
  }

  // ----- the blocks around the focus -----

  function Rest(c: Ctx, h: nat): map<nat, Entry> {
    match c
    case Top => map[]
    case Left(up, s) => Rest(up, h + 1) + Blocks(s, h, Off(c, h) + Pow2(h))
    case Right(up, s) => Rest(up, h + 1) + Blocks(s, h, Off(up, h + 1))
  }

  ghost predicate Outside(blocks: map<nat, Entry>, lo: nat, hi: nat) {
    forall b :: b in blocks ==> b < lo || hi <= b
  }

  lemma {:induction false} RestOutside(c: Ctx, h: nat)
    ensures Outside(Rest(c, h), Off(c, h), Off(c, h) + Pow2(h))
  {
    if !c.Top? {
      RestOutside(c.up, h + 1);
      BlocksWithin(c.sibling, h, if c.Left? then Off(c, h) + Pow2(h) else Off(c.up, h + 1));
    }
  }

  lemma UnionSwap(rest: map<nat, Entry>, s: map<nat, Entry>, t: map<nat, Entry>)
    requires s.Keys !! t.Keys
    ensures (rest + s) + t == rest + (s + t) == rest + (t + s)
  {
  }

  lemma RestUp(c: Ctx, h: nat)
    requires !c.Top?
    ensures Rest(c, h) == Rest(c.up, h + 1) +
                          Blocks(c.sibling, h, if c.Left? then Off(c, h) + Pow2(h) else Off(c.up, h + 1))
    ensures Off(c, h) == Off(c.up, h + 1) + if c.Left? then 0 else Pow2(h)
  {
  }

  lemma MergeBlocks(l: Tree, r: Tree, h: nat, off: nat)
    ensures Blocks(Merge(l, r), h, off) == Blocks(Inner(l, r), h, off)
  {
  }

  lemma AtTop(t: Tree, h: nat)
    ensures Off(Top, h) == 0 && Rest(Top, h) + Blocks(t, h, 0) == Blocks(t, h, 0)
  {
  }

  /** One level up, the sibling's blocks join those of the focus. */
  lemma RestOfParent(c: Ctx, t: Tree, h: nat)
    requires !c.Top?
    ensures var l, r := if c.Left? then t else c.sibling, if c.Left? then c.sibling else t;
      && Rest(c.up, h + 1) + Blocks(Inner(l, r), h + 1, Off(c.up, h + 1)) == Rest(c, h) + Blocks(t, h, Off(c, h))
      && Blocks(Merge(l, r), h + 1, Off(c.up, h + 1)) == Blocks(Inner(l, r), h + 1, Off(c.up, h + 1))
  {
    hide Blocks, Rest, Within, Pow2;
    var at := if c.Left? then Off(c, h) + Pow2(h) else Off(c.up, h + 1);
    RestUp(c, h);
    var l, r := if c.Left? then t else c.sibling, if c.Left? then c.sibling else t;
    Halves(l, r, h + 1, Off(c.up, h + 1));
    MergeBlocks(l, r, h + 1, Off(c.up, h + 1));
    KeysWithin(Blocks(l, h, Off(c.up, h + 1)), Off(c.up, h + 1), Off(c.up, h + 1) + Pow2(h));
    KeysWithin(Blocks(r, h, Off(c.up, h + 1) + Pow2(h)), Off(c.up, h + 1) + Pow2(h), Off(c.up, h + 1) + Pow2(h + 1));
    UnionSwap(Rest(c.up, h + 1), Blocks(c.sibling, h, at), Blocks(t, h, Off(c, h)));
  }

  lemma {:induction false} PlugBlocks(c: Ctx, t: Tree, h: nat)
    ensures Blocks(Plug(c, t), h + Depth(c), 0) == Rest(c, h) + Blocks(t, h, Off(c, h))
    ensures Blocks(MergePlug(c, t), h + Depth(c), 0) == Rest(c, h) + Blocks(t, h, Off(c, h))
  {
    hide Blocks, Rest, Off;
    if c.Top? {
      AtTop(t, h);
    } else {
      RestOfParent(c, t, h);
      var l, r := if c.Left? then t else c.sibling, if c.Left? then c.sibling else t;
      PlugBlocks(c.up, Inner(l, r), h + 1);
      PlugBlocks(c.up, Merge(l, r), h + 1);
    }
  }

  // ----- coalescing -----

  ghost predicate CanonicalCtx(c: Ctx, h: nat) {
    c.Top? || (Canonical(c.sibling, h) && CanonicalCtx(c.up, h + 1))
  }

  lemma {:induction false} CanonicalParts(c: Ctx, t: Tree, h: nat)
    requires Canonical(Plug(c, t), h + Depth(c))
    ensures Canonical(t, h) && CanonicalCtx(c, h)
  {
    match c
    case Top =>
    case Left(up, s) => CanonicalParts(up, Inner(t, s), h + 1);
    case Right(up, s) => CanonicalParts(up, Inner(s, t), h + 1);
  }

  lemma {:induction false} MergePlugCanonical(c: Ctx, t: Tree, h: nat)
    requires Canonical(t, h) && CanonicalCtx(c, h)
    ensures Canonical(MergePlug(c, t), h + Depth(c))
  {
    match c
    case Top =>
    case Left(up, s) => MergePlugCanonical(up, Merge(t, s), h + 1);
    case Right(up, s) => MergePlugCanonical(up, Merge(s, t), h + 1);
  }

  /** Nothing coalesces above an inner node. */
  lemma {:induction false} InnerStaysPut(c: Ctx, t: Tree)
    requires t.Inner? || (!c.Top? && !c.sibling.Vacant?) || c.Top?
    ensures MergePlug(c, t) == Plug(c, t)
  {
    match c
    case Top =>
    case Left(up, s) => InnerStaysPut(up, Inner(t, s));
    case Right(up, s) => InnerStaysPut(up, Inner(s, t));
  }

  /** Freeing the block in focus removes its entry and keeps the tree canonical. */
  lemma ReleaseCorrect(c: Ctx, u: nat, h: nat)
    requires Canonical(Plug(c, Block(u)), h + Depth(c))
    ensures Canonical(MergePlug(c, Vacant), h + Depth(c))
    ensures Blocks(MergePlug(c, Vacant), h + Depth(c), 0)
         == Blocks(Plug(c, Block(u)), h + Depth(c), 0) - {Off(c, h)}
    ensures Blocks(Plug(c, Block(u)), h + Depth(c), 0)
         == Blocks(MergePlug(c, Vacant), h + Depth(c), 0)[Off(c, h) := Entry(Pow2(h), u)]
  {
    hide Rest, Plug, MergePlug, Depth, CanonicalCtx;
    CanonicalParts(c, Block(u), h);
    MergePlugCanonical(c, Vacant, h);
    PlugBlocks(c, Block(u), h);
    PlugBlocks(c, Vacant, h);
    RestOutside(c, h);
    OneMore(Rest(c, h), Off(c, h), Entry(Pow2(h), u));
  }

  lemma OneMore(rest: map<nat, Entry>, b: nat, e: Entry)
    requires b !in rest
    ensures (rest + map[b := e]) - {b} == rest + map[]
    ensures rest + map[b := e] == (rest + map[])[b := e]
  {
  }

  /** A live block of the whole tree in the range of the focus is one of the focus. */
  lemma BlockInFocus(c: Ctx, t: Tree, h: nat, b: nat)
    requires b in Blocks(Plug(c, t), h + Depth(c), 0)
    requires Off(c, h) <= b < Off(c, h) + Pow2(h)
    ensures b in Blocks(t, h, Off(c, h))
    ensures Blocks(Plug(c, t), h + Depth(c), 0)[b] == Blocks(t, h, Off(c, h))[b]
  {
    PlugBlocks(c, t, h);
    RestOutside(c, h);
  }
}
