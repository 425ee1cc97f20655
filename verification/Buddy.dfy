/** The buddy allocator: struct buddy and its operations on the node array. */
module Buddy {
  import opened Powers
  import opened Sizing
  import opened BuddyTree
  import opened BuddyCursor
  import opened BuddyArray
  import opened BuddySearch
  import opened BuddyRelease

  class Buddy {
    const level: nat
    const tree: array<Node>
    ghost var shape: Tree

    /** buddy_new counts the nodes as 1 << (level + 1), an int. */
    ghost predicate Valid()
      reads this, tree
    {
      && level <= MAX_LEVEL
      && tree.Length == Pow2(level + 1) - 1
      && Canonical(shape, level)
      && Repr(tree[..], 0, level, shape)
    }

    /** The live blocks: page offset to size in pages and requested bytes. */
    ghost function Live(): map<nat, Entry>
      reads this
    {
      Blocks(shape, level, 0)
    }

    constructor (level: nat)
      requires level <= MAX_LEVEL
      ensures Valid() && this.level == level && fresh(tree)
      ensures Live() == map[]
    {
      this.level := level;
      tree := new Node[Pow2(level + 1) - 1](_ => Node(0, 0, Unused));
      shape := Vacant;
    }

    method SetNode(i: nat, n: Node)
      requires i < tree.Length
      modifies tree
      ensures tree[..] == old(tree[..])[i := n]
    {
      tree[i] := n;
    }

    method SetState(i: nat, s: State)
      requires i < tree.Length
      modifies tree
      ensures tree[..] == old(tree[..])[i := old(tree[i]).(state := s)]
    {
      tree[i] := tree[i].(state := s);
    }

    /** Marks as FULL every ancestor that has just filled up. */
    method MarkParent(index: nat, ghost h: nat, ghost c: Ctx, ghost t: Tree)
      requires Repr(tree[..], index, h, t) && Closed(t) && ReprCtx(tree[..], index, h, c, false)
      modifies tree
      ensures Repr(tree[..], 0, h + Depth(c), Plug(c, t))
    {
      hide Repr, ReprCtx, Closed, Plug, Depth, Pow2;
      var i: int := index;
      ghost var hh: nat, cc, tt := h, c, t;
      while true
        invariant 0 <= i && Closed(tt)
        invariant Repr(tree[..], i, hh, tt) && ReprCtx(tree[..], i, hh, cc, false)
        invariant Plug(cc, tt) == Plug(c, t) && hh + Depth(cc) == h + Depth(c)
        decreases cc
      {
        var buddy := i - 1 + (i % 2) * 2;
        LookAround(tree[..], i, hh, cc, false);
        if buddy > 0 && (tree[buddy].state == Used || tree[buddy].state == Full) {
          ghost var a := tree[..];
          ghost var below := i;
          i := (i + 1) / 2 - 1;
          SetState(i, Full);
          SetParent(a, below, hh, cc, tt, false, i, tree[..]);
          tt, cc, hh := Join(cc, tt), cc.up, hh + 1;
        } else {
          PlugRepr(tree[..], i, hh, cc, tt);
          return;
        }
      }
    }

    /** First fit, splitting on the way down; None stands for the failure value -1. */
    method Alloc(s: nat) returns (r: Option<nat>)
      requires Valid()
      modifies this`shape, tree
      ensures Valid()
      ensures r.None? ==> tree[..] == old(tree[..]) && Live() == old(Live())
      ensures r.None? ==> NoFit(old(Live()), BlockPages(s), Pow2(level))
      ensures r.Some? ==> var o := r.value / PAGE_SIZE;
        && r.value == PAGE_SIZE * o
        && LowestFit(old(Live()), o, BlockPages(s), Pow2(level))
        && Live() == old(Live())[o := Entry(BlockPages(s), s)]
    {
      var size := BlockPages(s);
      var length := Pow2(level);
      if size > length {
        return None;
      }
      ghost var k := SizeExponent(s, level);
      ghost var goal := Fit(shape, level, k, s);
      FirstFit(shape, level, k, s, size);
      hide Repr, Fit, Canonical, Blocks, BlockPages, Pow2, Fits, NoFit, LowestFit;
      r := Search(s, size, k, shape);
      if r.Some? {
        ModProduct(goal.value.at, PAGE_SIZE);
        shape := goal.value.tree;
      }
    }

    /** From a left child over to its sibling; from a right child, first up to the
        nearest left child. The index is negative when there is none. */
    method Backtrack(index: int, level: int, length: int, ghost z: Focus, ghost k: nat, ghost s: nat, ghost shape: Tree)
      returns (index': int, level': int, length': int, ghost z': Focus)
      requires Here(tree[..], index, level, length, z, this.level)
      requires Pending(z, k, s, shape) && Fit(z.t, z.h, k, s).None?
      ensures index' < 0 ==> Fit(shape, this.level, k, s).None?
      ensures index' >= 0 ==>
        && Here(tree[..], index', level', length', z', this.level)
        && Pending(z', k, s, shape)
        && Remaining(z', this.level) < Remaining(z, this.level)
    {
      hide Repr, ReprCtx, Fit, Closed, LeftFailed, Plug, Off, Depth, Remaining;
      index', level', length', z' := index, level, length, z;
      if index' % 2 == 1 {
        StepAside(tree[..], index', level', length', z', this.level, k, s, shape);
        z' := Focus(z'.h, Right(z'.c.up, z'.t), z'.c.sibling);
        index' := index' + 1;
        return;
      }
      while true
        invariant Here(tree[..], index', level', length', z', this.level) && index' % 2 == 0
        invariant Pending(z', k, s, shape) && Fit(z'.t, z'.h, k, s).None?
        invariant Remaining(z', this.level) - Pow2(z'.h) == Remaining(z, this.level) - Pow2(z.h)
        decreases index'
      {
        if index' == 0 {
          SearchFails(tree[..], level', length', z', this.level, k, s, shape);
        } else {
          StepUp(tree[..], index', level', length', z', this.level, k, s, shape);
          z' := Focus(z'.h + 1, z'.c.up, Inner(z'.c.sibling, z'.t));
        }
        level' := level' - 1;
        length' := length' * 2;
        index' := (index' + 1) / 2 - 1;
        if index' < 0 {
          return;
        }
        if index' % 2 == 1 {
          StepAside(tree[..], index', level', length', z', this.level, k, s, shape);
          z' := Focus(z'.h, Right(z'.c.up, z'.t), z'.c.sibling);
          index' := index' + 1;
          return;
        }
      }
    }

    /** Takes the free node in focus and returns the byte offset of its pages. */
    method Claim(index: int, level: int, size: nat, ghost z: Focus, ghost k: nat, s: nat, ghost shape: Tree)
      returns (offset: nat)
      requires 0 <= index < tree.Length && size == Pow2(k)
      requires Here(tree[..], index, level, size, z, this.level)
      requires OnTarget(z, k, s, Fit(shape, this.level, k, s))
      modifies tree
      ensures var goal := Fit(shape, this.level, k, s);
        goal.Some? && offset == PAGE_SIZE * goal.value.at && Repr(tree[..], 0, this.level, goal.value.tree)
    {
      Arrive(tree[..], index, level, size, z, this.level, k, s, shape);
      StepFound(tree[..], index, level, size, z, this.level, k, s, Fit(shape, this.level, k, s));
      hide Repr, ReprCtx, Fit, Closed, Plug, Off, Pow2, Here, OnTarget;
      offset := PAGE_SIZE * ((index + 1 - Pow2(level)) * Pow2(this.level - level));
      SetNode(index, Node(size, s, Used));
      MarkParent(index, z.h, z.c, Block(s));
    }

    /** Puts the focus on the left half of an open node, splitting it first if it is free. */
    method Narrow(index: int, level: int, length: int, ghost z: Focus, ghost k: nat, ghost s: nat, ghost shape: Tree)
      returns (ghost z': Focus)
      requires 0 <= index && 2 * index + 2 < tree.Length && k < z.h
      requires tree[index].state == Unused || tree[index].state == Split
      requires Here(tree[..], index, level, length, z, this.level)
      requires Pending(z, k, s, shape) || OnTarget(z, k, s, Fit(shape, this.level, k, s))
      modifies tree
      ensures Here(tree[..], 2 * index + 1, level + 1, length / 2, z', this.level)
      ensures if z.t.Vacant? then OnTarget(z', k, s, Fit(shape, this.level, k, s))
              else Pending(z', k, s, shape) && tree[..] == old(tree[..])
      ensures Remaining(z', this.level) == Remaining(z, this.level) && z'.h < z.h
    {
      ghost var goal := Fit(shape, this.level, k, s);
      Arrive(tree[..], index, level, length, z, this.level, k, s, shape);
      hide Repr, ReprCtx, Fit, Closed, Plug, Off, Pow2, Remaining, Here, Pending, OnTarget;
      if tree[index].state == Unused {
        ghost var a := tree[..];
        SetState(index, Split);
        SetState(index * 2 + 1, Unused);
        SetState(index * 2 + 2, Unused);
        StepSplit(a, tree[..], index, level, length, z, this.level, k, s, goal);
        z' := Focus(z.h - 1, Left(z.c, Vacant), Vacant);
      } else {
        StepDown(tree[..], index, level, length, z, this.level, k, s, shape);
        z' := Focus(z.h - 1, Left(z.c, z.t.right), z.t.left);
      }
    }

    /** The search loop of buddy_alloc. */
    method Search(s: nat, size: nat, ghost k: nat, ghost shape: Tree) returns (r: Option<nat>)
      requires tree.Length == Pow2(level + 1) - 1 && Repr(tree[..], 0, level, shape)
      requires k <= level && size == Pow2(k)
      modifies tree
      ensures var goal := Fit(shape, level, k, s);
        match r
        case None => goal.None? && tree[..] == old(tree[..])
        case Some(offset) =>
          goal.Some? && offset == PAGE_SIZE * goal.value.at && Repr(tree[..], 0, level, goal.value.tree)
    {
      Start(tree[..], level, k, s, shape);
      hide Repr, ReprCtx, Fit, Closed, Plug, Off, Pow2, Remaining, Here, Pending, OnTarget;
      var length := Pow2(level);
      var index: int, lvl: int := 0, 0;
      ghost var z := Focus(level, Top, shape);
      ghost var goal := Fit(shape, level, k, s);
      while index >= 0
        invariant index >= 0 && Here(tree[..], index, lvl, length, z, level)
        invariant (tree[..] == old(tree[..]) && Pending(z, k, s, shape)) || OnTarget(z, k, s, goal)
        decreases Remaining(z, level), z.h
      {
        Arrive(tree[..], index, lvl, length, z, level, k, s, shape);
        if size == length {
          if tree[index].state == Unused {
            var offset := Claim(index, lvl, size, z, k, s, shape);
            return Some(offset);
          }
        } else {
          if tree[index].state != Used && tree[index].state != Full {
            z := Narrow(index, lvl, length, z, k, s, shape);
            index := index * 2 + 1;
            length := length / 2;
            lvl := lvl + 1;
            continue;
          }
        }
        NoRoomHere(tree[..], index, lvl, length, z, level, k, s);
        index, lvl, length, z := Backtrack(index, lvl, length, z, k, s, shape);
        if index < 0 {
          return None;
        }
      }
      return None;
    }

    /** Frees a node, coalescing it with free siblings, and reopens its FULL ancestors. */
    method Combine(index: nat, ghost h: nat, ghost c: Ctx)
      requires index < tree.Length && ReprCtx(tree[..], index, h, c, true)
      modifies tree
      ensures Repr(tree[..], 0, h + Depth(c), MergePlug(c, Vacant))
    {
      hide Repr, ReprCtx, Closed, Plug, MergePlug, Depth;
      var i: int := index;
      ghost var hh: nat, cc, closed := h, c, true;
      while true
        invariant 0 <= i < tree.Length && tree[..] == old(tree[..])
        invariant ReprCtx(tree[..], i, hh, cc, closed)
        invariant MergePlug(cc, Vacant) == MergePlug(c, Vacant) && hh + Depth(cc) == h + Depth(c)
        decreases i
      {
        var buddy := i - 1 + (i % 2) * 2;
        LookAround(tree[..], i, hh, cc, closed);
        if buddy < 0 || tree[buddy].state != Unused {
          FreeFocus(tree[..], i, hh, cc, closed);
          SetState(i, Unused);
          Reopen(i, hh, cc, Vacant, closed);
          return;
        }
        ClimbFree(tree[..], i, hh, cc, closed);
        i := (i + 1) / 2 - 1;
        cc, hh, closed := cc.up, hh + 1, false;
      }
    }

    /** The inner loop of _combine: FULL ancestors of an open node become SPLIT. */
    method Reopen(index: nat, ghost h: nat, ghost c: Ctx, ghost t: Tree, ghost closed: bool)
      requires Repr(tree[..], index, h, t) && !Closed(t) && ReprCtx(tree[..], index, h, c, closed)
      modifies tree
      ensures Repr(tree[..], 0, h + Depth(c), Plug(c, t))
    {
      hide Repr, ReprCtx, Closed, Plug, Depth;
      ghost var hh: nat, cc, tt, cl, below: nat := h, c, t, closed, index;
      LookAround(tree[..], below, hh, cc, cl);
      var i: int := (index + 1) / 2 - 1;
      while i >= 0 && tree[i].state == Full
        invariant i == (below + 1) / 2 - 1 && i < tree.Length
        invariant Repr(tree[..], below, hh, tt) && !Closed(tt) && ReprCtx(tree[..], below, hh, cc, cl)
        invariant Plug(cc, tt) == Plug(c, t) && hh + Depth(cc) == h + Depth(c)
        decreases i
      {
        LookAround(tree[..], below, hh, cc, cl);
        OpenParent(tree[..], below, hh, cc, tt, cl, i);
        SetState(i, Split);
        tt, cc, hh, cl, below := Join(cc, tt), cc.up, hh + 1, true, i;
        LookAround(tree[..], below, hh, cc, cl);
        i := (i + 1) / 2 - 1;
      }
      Settled(tree[..], below, hh, cc, tt, cl);
    }

    /** Releases the block at a byte offset. */
    method Free(offset: nat)
      requires Valid() && offset / PAGE_SIZE in Live()
      modifies this`shape, tree
      ensures Valid()
      ensures Live() == old(Live()) - {offset / PAGE_SIZE}
    {
      hide Descending, Pow2, Repr, ReprCtx, Canonical, MergePlug, Depth, Blocks;
      var page := offset / PAGE_SIZE;
      var left: nat, length: nat, index: nat := 0, Pow2(level), 0;
      ghost var z := Focus(level, Top, shape);
      StartDescent(tree[..], shape, level, page);
      while true
        invariant Descending(tree[..], index, left, length, z, shape, level, page)
        invariant tree[..] == old(tree[..]) && shape == old(shape)
        decreases z.h
      {
        DescentState(tree[..], index, left, length, z, shape, level, page);
        match tree[index].state {
          case Used =>
            assert page == left;
            ReleaseFocus(tree[..], index, left, length, z, shape, level, page);
            Combine(index, z.h, z.c);
            shape := MergePlug(z.c, Vacant);
            return;
          case Unused =>
            assert false;
          case _ =>
            StepDescent(tree[..], index, left, length, z, shape, level, page);
            length := length / 2;
            if page < left + length {
              index := index * 2 + 1;
              z := Chosen(z, true);
            } else {
              left := left + length;
              index := index * 2 + 2;
              z := Chosen(z, false);
            }
        }
      }
    }

    /** The size in pages of the block at a page offset. */
    method PageSize(offset: nat) returns (pages: nat)
      requires Valid() && offset in Live()
      ensures pages == Live()[offset].pages
    {
      hide Descending, Pow2, Repr, ReprCtx, Canonical, MergePlug, Depth, Blocks;
      var left: nat, length: nat, index: nat := 0, Pow2(level), 0;
      ghost var z := Focus(level, Top, shape);
      StartDescent(tree[..], shape, level, offset);
      while true
        invariant Descending(tree[..], index, left, length, z, shape, level, offset)
        decreases z.h
      {
        DescentState(tree[..], index, left, length, z, shape, level, offset);
        match tree[index].state {
          case Used =>
            assert offset == left;
            return length;
          case Unused =>
            assert false;
          case _ =>
            StepDescent(tree[..], index, left, length, z, shape, level, offset);
            length := length / 2;
            if offset < left + length {
              index := index * 2 + 1;
              z := Chosen(z, true);
            } else {
              left := left + length;
              index := index * 2 + 2;
              z := Chosen(z, false);
            }
        }
      }
    }

    /** The byte count given to Alloc for the block at a byte offset. */
    method UsedSize(offset: nat) returns (bytes: nat)
      requires Valid() && offset / PAGE_SIZE in Live()
      ensures bytes == Live()[offset / PAGE_SIZE].bytes
    {
      hide Descending, Pow2, Repr, ReprCtx, Canonical, MergePlug, Depth, Blocks;
      var page := offset / PAGE_SIZE;
      var left: nat, length: nat, index: nat := 0, Pow2(level), 0;
      ghost var z := Focus(level, Top, shape);
      StartDescent(tree[..], shape, level, page);
      while true
        invariant Descending(tree[..], index, left, length, z, shape, level, page)
        decreases z.h
      {
        DescentState(tree[..], index, left, length, z, shape, level, page);
        match tree[index].state {
          case Used =>
            assert page == left;
            return tree[index].used;
          case Unused =>
            assert false;
          case _ =>
            StepDescent(tree[..], index, left, length, z, shape, level, page);
            length := length / 2;
            if page < left + length {
              index := index * 2 + 1;
              z := Chosen(z, true);
            } else {
              left := left + length;
              index := index * 2 + 2;
              z := Chosen(z, false);
            }
        }
      }
    }
  }
}
