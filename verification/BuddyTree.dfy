/** The buddy tree as a value: which blocks it holds, what allocation and release do
    to it, and why its shape is a function of the set of live blocks. */
module BuddyTree {
  import opened Powers

  /** The highest page level: buddy_new shifts the int 1 by one more. */
  const MAX_LEVEL: nat := 29

  /** The part of the node array that matters; states below Vacant and Block nodes do not. */
  datatype Tree = Vacant | Block(used: nat) | Inner(left: Tree, right: Tree)

  datatype Entry = Entry(pages: nat, bytes: nat)

  /** An allocation: the tree after it, and the page offset of the new block. */
  datatype Placed = Placed(tree: Tree, at: nat)

  /** Fully coalesced, and no deeper than its height. */
  predicate Canonical(t: Tree, h: nat) {
    match t
    case Vacant => true
    case Block(_) => true
    case Inner(l, r) => h > 0 && Canonical(l, h - 1) && Canonical(r, h - 1) && !(l.Vacant? && r.Vacant?)
  }

  /** What NODE_USED and NODE_FULL stand for: every child path ends in a block. */
  predicate Closed(t: Tree) {
    match t
    case Vacant => false
    case Block(_) => true
    case Inner(l, r) => Closed(l) && Closed(r)
  }

  /** The live blocks by page offset, for a subtree of height `h` at page `off`. */
  function Blocks(t: Tree, h: nat, off: nat): map<nat, Entry> {
    match t
    case Vacant => map[]
    case Block(u) => map[off := Entry(Pow2(h), u)]
    case Inner(l, r) =>
      if h == 0 then map[] else Blocks(l, h - 1, off) + Blocks(r, h - 1, off + Pow2(h - 1))
  }

  /** First fit in preorder for a block of 2^k pages holding `u` bytes. */
  function Fit(t: Tree, h: nat, k: nat, u: nat): Option<Placed> {
    match t
    case Block(_) => None
    case Vacant =>
      if h < k then None
      else if h == k then Some(Placed(Block(u), 0))
      else (match Fit(Vacant, h - 1, k, u)
            case Some(p) => Some(Placed(Inner(p.tree, Vacant), p.at))
            case None => None)
    case Inner(l, r) =>
      if h <= k then None
      else (match Fit(l, h - 1, k, u)
            case Some(p) => Some(Placed(Inner(p.tree, r), p.at))
            case None =>
              match Fit(r, h - 1, k, u)
              case Some(p) => Some(Placed(Inner(l, p.tree), Pow2(h - 1) + p.at))
              case None => None)
  }

  /** A node over two children, coalesced when both are free. */
  function Merge(l: Tree, r: Tree): Tree {
    if l.Vacant? && r.Vacant? then Vacant else Inner(l, r)
  }

  // ----- ranges -----

  /** No live block meets the pages [o, o + n). */
  ghost predicate FreeRun(blocks: map<nat, Entry>, o: nat, n: nat) {
    forall b :: b in blocks ==> b + blocks[b].pages <= o || o + n <= b
  }

  ghost predicate Within(blocks: map<nat, Entry>, lo: nat, hi: nat) {
    forall b :: b in blocks ==> lo <= b && b + blocks[b].pages <= hi && blocks[b].pages > 0
  }

  ghost predicate Disjoint(blocks: map<nat, Entry>) {
    forall b, c :: b in blocks && c in blocks && b < c ==> b + blocks[b].pages <= c
  }

  lemma {:induction false} BlocksWithin(t: Tree, h: nat, off: nat)
    ensures Within(Blocks(t, h, off), off, off + Pow2(h))
  {
    if t.Inner? && h > 0 {
      BlocksWithin(t.left, h - 1, off);
      BlocksWithin(t.right, h - 1, off + Pow2(h - 1));
    }
  }

  lemma {:induction false} BlocksApart(t: Tree, h: nat, off: nat, b: nat, c: nat)
    requires b in Blocks(t, h, off) && c in Blocks(t, h, off) && b < c
    ensures b + Blocks(t, h, off)[b].pages <= c
  {
    if t.Inner? && h > 0 {
      var m := off + Pow2(h - 1);
      BlocksWithin(t.left, h - 1, off);
      BlocksWithin(t.right, h - 1, m);
      if b in Blocks(t.right, h - 1, m) {
        BlocksApart(t.right, h - 1, m, b, c);
      } else if c !in Blocks(t.right, h - 1, m) {
        BlocksApart(t.left, h - 1, off, b, c);
      }
    }
  }

  lemma BlocksDisjoint(t: Tree, h: nat, off: nat)
    ensures Disjoint(Blocks(t, h, off))
  {
    forall b, c | b in Blocks(t, h, off) && c in Blocks(t, h, off) && b < c
      ensures b + Blocks(t, h, off)[b].pages <= c
    {
      BlocksApart(t, h, off, b, c);
    }
  }

  lemma HalfMultiples(q: nat, half: nat)
    ensures q * (2 * half) == (2 * q) * half && q * (2 * half) + half == (2 * q + 1) * half
  {
  }

  /** Each block's offset is a multiple of its size, and its size a power of two. */
  lemma {:induction false} BlocksAligned(t: Tree, h: nat, q: nat, b: nat)
    requires b in Blocks(t, h, q * Pow2(h))
    ensures IsPow2(Blocks(t, h, q * Pow2(h))[b].pages)
    ensures b % Blocks(t, h, q * Pow2(h))[b].pages == 0
  {
    var p := Pow2(h);
    if t.Block? {
      ModProduct(q, p);
    } else if t.Inner? && h > 0 {
      var half := Pow2(h - 1);
      HalfMultiples(q, half);
      if b in Blocks(t.right, h - 1, q * p + half) {
        BlocksAligned(t.right, h - 1, 2 * q + 1, b);
      } else {
        BlocksAligned(t.left, h - 1, 2 * q, b);
      }
    }
  }

  /** A canonical tree that is not free covers a page of its range. */
  lemma {:induction false} NotFreeHasBlock(t: Tree, h: nat, off: nat)
    requires Canonical(t, h) && !t.Vacant?
    ensures exists b :: b in Blocks(t, h, off)
  {
    if t.Block? {
      assert off in Blocks(t, h, off);
    } else {
      var l, r := Blocks(t.left, h - 1, off), Blocks(t.right, h - 1, off + Pow2(h - 1));
      if t.left.Vacant? {
        NotFreeHasBlock(t.right, h - 1, off + Pow2(h - 1));
        var b :| b in r;
        assert b in Blocks(t, h, off);
      } else {
        NotFreeHasBlock(t.left, h - 1, off);
        var b :| b in l;
        assert b in Blocks(t, h, off);
      }
    }
  }

  // ----- history independence -----

  lemma SplitMaps(a: map<nat, Entry>, b: map<nat, Entry>, c: map<nat, Entry>, d: map<nat, Entry>, m: nat)
    requires a + b == c + d
    requires forall k :: k in a || k in c ==> k < m
    requires forall k :: k in b || k in d ==> k >= m
    ensures a == c && b == d
  {
    forall k
      ensures k in a <==> k in c
      ensures k in a ==> a[k] == c[k]
      ensures k in b <==> k in d
      ensures k in b ==> b[k] == d[k]
    {
      assert k in a + b <==> k in c + d;
      if k in a + b {
        assert (a + b)[k] == (c + d)[k];
      }
    }
  }

  lemma SameHalves(s: Tree, t: Tree, h: nat, off: nat)
    requires s.Inner? && t.Inner? && h > 0
    requires Blocks(s, h, off) == Blocks(t, h, off)
    ensures Blocks(s.left, h - 1, off) == Blocks(t.left, h - 1, off)
    ensures Blocks(s.right, h - 1, off + Pow2(h - 1)) == Blocks(t.right, h - 1, off + Pow2(h - 1))
  {
    hide Blocks, Within, Pow2;
    var m := off + Pow2(h - 1);
    Halves(s.left, s.right, h, off);
    Halves(t.left, t.right, h, off);
    KeysWithin(Blocks(s.left, h - 1, off), off, m);
    KeysWithin(Blocks(t.left, h - 1, off), off, m);
    KeysWithin(Blocks(s.right, h - 1, m), m, off + Pow2(h));
    KeysWithin(Blocks(t.right, h - 1, m), m, off + Pow2(h));
    assert Inner(s.left, s.right) == s && Inner(t.left, t.right) == t;
    SplitMaps(Blocks(s.left, h - 1, off), Blocks(s.right, h - 1, m),
              Blocks(t.left, h - 1, off), Blocks(t.right, h - 1, m), m);
  }

  /** The live blocks determine a canonical tree. */
  lemma {:induction false} CanonicalIsUnique(s: Tree, t: Tree, h: nat, off: nat)
    requires Canonical(s, h) && Canonical(t, h)
    requires Blocks(s, h, off) == Blocks(t, h, off)
    ensures s == t
  {
    if s.Vacant? || t.Vacant? {
      if !s.Vacant? {
        NotFreeHasBlock(s, h, off);
      }
      if !t.Vacant? {
        NotFreeHasBlock(t, h, off);
      }
    } else if s.Block? && t.Block? {
      assert Blocks(s, h, off)[off] == Blocks(t, h, off)[off];
    } else if s.Block? {
      BlockIsNotInner(t, h, off);
    } else if t.Block? {
      BlockIsNotInner(s, h, off);
    } else {
      SameHalves(s, t, h, off);
      CanonicalIsUnique(s.left, t.left, h - 1, off);
      CanonicalIsUnique(s.right, t.right, h - 1, off + Pow2(h - 1));
    }
  }

  lemma BlockIsNotInner(t: Tree, h: nat, off: nat)
    requires t.Inner? && h > 0
    ensures off in Blocks(t, h, off) ==> Blocks(t, h, off)[off].pages < Pow2(h)
  {
    BlocksWithin(t.left, h - 1, off);
    BlocksWithin(t.right, h - 1, off + Pow2(h - 1));
  }

  // ----- allocation -----

  /** Offsets, relative to a subtree of height `h`, where a block of 2^k pages may start. */
  predicate Slot(o: nat, h: nat, k: nat) {
    if h <= k then h == k && o == 0
    else if o < Pow2(h - 1) then Slot(o, h - 1, k)
    else Slot(o - Pow2(h - 1), h - 1, k)
  }

  lemma {:induction false} SlotIsAligned(o: nat, h: nat, k: nat)
    requires k <= h
    ensures Slot(o, h, k) <==> o % Pow2(k) == 0 && o + Pow2(k) <= Pow2(h)
    decreases h
  {
    if h == k {
      AlignedInOne(o, Pow2(k));
    } else {
      Pow2Sum(h - 1 - k, k);
      if o < Pow2(h - 1) {
        SlotIsAligned(o, h - 1, k);
        MultipleBelow(o, Pow2(k), Pow2(h - 1 - k));
      } else {
        SlotIsAligned(o - Pow2(h - 1), h - 1, k);
        ModShift(o, Pow2(k), Pow2(h - 1 - k));
      }
    }
  }

  ghost predicate NoneFree(bs: map<nat, Entry>, h: nat, k: nat, off: nat, below: nat) {
    forall o: nat :: Slot(o, h, k) && o < below ==> !FreeRun(bs, off + o, Pow2(k))
  }

  /** A slot of an inner node is a slot of one half, and is free in that half alone. */
  lemma SlotSplit(lb: map<nat, Entry>, rb: map<nat, Entry>, off: nat, h: nat, k: nat, o: nat)
    requires k < h && Slot(o, h, k)
    requires Within(lb, off, off + Pow2(h - 1)) && Within(rb, off + Pow2(h - 1), off + Pow2(h))
    ensures o < Pow2(h - 1) ==> Slot(o, h - 1, k)
    ensures o >= Pow2(h - 1) ==> Slot(o - Pow2(h - 1), h - 1, k)
    ensures FreeRun(lb + rb, off + o, Pow2(k)) <==> FreeRun(if o < Pow2(h - 1) then lb else rb, off + o, Pow2(k))
  {
    if o < Pow2(h - 1) {
      SlotInside(o, h - 1, k);
    }
    FreeRunSplit(lb, rb, off, Pow2(h - 1), o, Pow2(k));
  }

  lemma NoneFreeLeft(lb: map<nat, Entry>, rb: map<nat, Entry>, off: nat, h: nat, k: nat, below: nat)
    requires k < h && below <= Pow2(h - 1)
    requires Within(lb, off, off + Pow2(h - 1)) && Within(rb, off + Pow2(h - 1), off + Pow2(h))
    requires NoneFree(lb, h - 1, k, off, below)
    ensures NoneFree(lb + rb, h, k, off, below)
  {
    forall o: nat | Slot(o, h, k) && o < below
      ensures !FreeRun(lb + rb, off + o, Pow2(k))
    {
      SlotSplit(lb, rb, off, h, k, o);
    }
  }

  lemma NoneFreeRight(lb: map<nat, Entry>, rb: map<nat, Entry>, off: nat, h: nat, k: nat, below: nat)
    requires k < h
    requires Within(lb, off, off + Pow2(h - 1)) && Within(rb, off + Pow2(h - 1), off + Pow2(h))
    requires NoneFree(lb, h - 1, k, off, Pow2(h - 1))
    requires NoneFree(rb, h - 1, k, off + Pow2(h - 1), below)
    ensures NoneFree(lb + rb, h, k, off, Pow2(h - 1) + below)
  {
    forall o: nat | Slot(o, h, k) && o < Pow2(h - 1) + below
      ensures !FreeRun(lb + rb, off + o, Pow2(k))
    {
      SlotSplit(lb, rb, off, h, k, o);
      assert o >= Pow2(h - 1) ==> off + o == off + Pow2(h - 1) + (o - Pow2(h - 1));
    }
  }

  lemma UpdateLeft(lb: map<nat, Entry>, rb: map<nat, Entry>, m: nat, b: nat, e: Entry)
    requires b < m && forall c :: c in rb ==> m <= c
    ensures lb[b := e] + rb == (lb + rb)[b := e]
  {
  }

  lemma UpdateRight(lb: map<nat, Entry>, rb: map<nat, Entry>, b: nat, e: Entry)
    ensures lb + rb[b := e] == (lb + rb)[b := e]
  {
  }

  ghost predicate AllocResult(r: Option<Placed>, t: Tree, h: nat, k: nat, u: nat, off: nat) {
    var bs := Blocks(t, h, off);
    match r
    case None => NoneFree(bs, h, k, off, Pow2(h))
    case Some(p) =>
      && Slot(p.at, h, k)
      && FreeRun(bs, off + p.at, Pow2(k))
      && NoneFree(bs, h, k, off, p.at)
      && Canonical(p.tree, h)
      && !p.tree.Vacant?
      && Blocks(p.tree, h, off) == bs[off + p.at := Entry(Pow2(k), u)]
  }

  lemma Halves(l: Tree, r: Tree, h: nat, off: nat)
    requires h > 0
    ensures Blocks(Inner(l, r), h, off) == Blocks(l, h - 1, off) + Blocks(r, h - 1, off + Pow2(h - 1))
    ensures Within(Blocks(l, h - 1, off), off, off + Pow2(h - 1))
    ensures Within(Blocks(r, h - 1, off + Pow2(h - 1)), off + Pow2(h - 1), off + Pow2(h))
    ensures Pow2(h) == 2 * Pow2(h - 1)
  {
    BlocksWithin(l, h - 1, off);
    BlocksWithin(r, h - 1, off + Pow2(h - 1));
  }

  lemma SlotOfHalf(o: nat, h: nat, k: nat)
    requires k < h && Slot(o, h - 1, k)
    ensures o < Pow2(h - 1) && Slot(o, h, k) && Slot(Pow2(h - 1) + o, h, k)
  {
    SlotInside(o, h - 1, k);
  }

  lemma AllocLeft(l: Tree, r: Tree, h: nat, k: nat, u: nat, off: nat, p: Placed)
    requires k < h && Canonical(r, h - 1)
    requires AllocResult(Some(p), l, h - 1, k, u, off)
    ensures AllocResult(Some(Placed(Inner(p.tree, r), p.at)), Inner(l, r), h, k, u, off)
  {
    hide Slot, Blocks, FreeRun, NoneFree, Pow2, Within;
    var lb, rb := Blocks(l, h - 1, off), Blocks(r, h - 1, off + Pow2(h - 1));
    Halves(l, r, h, off);
    Halves(p.tree, r, h, off);
    SlotOfHalf(p.at, h, k);
    SlotSplit(lb, rb, off, h, k, p.at);
    NoneFreeLeft(lb, rb, off, h, k, p.at);
    KeysWithin(rb, off + Pow2(h - 1), off + Pow2(h));
    UpdateLeft(lb, rb, off + Pow2(h - 1), off + p.at, Entry(Pow2(k), u));
  }

  lemma KeysWithin(bs: map<nat, Entry>, lo: nat, hi: nat)
    requires Within(bs, lo, hi)
    ensures forall b :: b in bs ==> lo <= b < hi
  {
  }

  lemma AllocRight(l: Tree, r: Tree, h: nat, k: nat, u: nat, off: nat, p: Placed)
    requires k < h && Canonical(l, h - 1)
    requires AllocResult(None, l, h - 1, k, u, off)
    requires AllocResult(Some(p), r, h - 1, k, u, off + Pow2(h - 1))
    ensures AllocResult(Some(Placed(Inner(l, p.tree), Pow2(h - 1) + p.at)), Inner(l, r), h, k, u, off)
  {
    hide Slot, Blocks, FreeRun, NoneFree, Pow2, Within;
    var lb, rb := Blocks(l, h - 1, off), Blocks(r, h - 1, off + Pow2(h - 1));
    Halves(l, r, h, off);
    Halves(l, p.tree, h, off);
    var at := Pow2(h - 1) + p.at;
    SlotOfHalf(p.at, h, k);
    SlotSplit(lb, rb, off, h, k, at);
    NoneFreeRight(lb, rb, off, h, k, p.at);
    UpdateRight(lb, rb, off + at, Entry(Pow2(k), u));
    assert off + at == off + Pow2(h - 1) + p.at;
  }

  lemma AllocNeither(l: Tree, r: Tree, h: nat, k: nat, u: nat, off: nat)
    requires k < h
    requires AllocResult(None, l, h - 1, k, u, off)
    requires AllocResult(None, r, h - 1, k, u, off + Pow2(h - 1))
    ensures AllocResult(None, Inner(l, r), h, k, u, off)
  {
    BlocksWithin(l, h - 1, off);
    BlocksWithin(r, h - 1, off + Pow2(h - 1));
    NoneFreeRight(Blocks(l, h - 1, off), Blocks(r, h - 1, off + Pow2(h - 1)), off, h, k, Pow2(h - 1));
  }

  /** A free node above the wanted size behaves like a split one. */
  lemma AllocSplit(t: Tree, h: nat, k: nat, u: nat, off: nat)
    requires k < h && !t.Block?
    ensures var l, r := if t.Vacant? then Vacant else t.left, if t.Vacant? then Vacant else t.right;
      forall p :: AllocResult(p, Inner(l, r), h, k, u, off) ==> AllocResult(p, t, h, k, u, off)
  {
    if t.Vacant? {
      assert Blocks(Inner(Vacant, Vacant), h, off) == Blocks(t, h, off);
    }
  }

  /** First fit on a subtree succeeds exactly when some slot is wholly free, takes the
      lowest, keeps the tree canonical, and adds that block and nothing else. */
  lemma {:induction false} AllocCorrect(t: Tree, h: nat, k: nat, u: nat, off: nat)
    requires Canonical(t, h)
    ensures AllocResult(Fit(t, h, k, u), t, h, k, u, off)
  {
    if h < k {
    } else if t.Block? {
      SlotsInside(h, k);
      assert off in Blocks(t, h, off);
    } else if h == k {
      if t.Inner? {
        NotFreeHasBlock(t, h, off);
        BlocksWithin(t, h, off);
      }
    } else {
      var l := if t.Vacant? then Vacant else t.left;
      var r := if t.Vacant? then Vacant else t.right;
      AllocSplit(t, h, k, u, off);
      hide AllocResult, Blocks, Slot;
      AllocCorrect(l, h - 1, k, u, off);
      AllocCorrect(r, h - 1, k, u, off + Pow2(h - 1));
      match Fit(l, h - 1, k, u)
      case Some(p) =>
        AllocLeft(l, r, h, k, u, off, p);
      case None =>
        match Fit(r, h - 1, k, u)
        case Some(p) => AllocRight(l, r, h, k, u, off, p);
        case None => AllocNeither(l, r, h, k, u, off);
    }
  }

  lemma FreeRunSplit(lb: map<nat, Entry>, rb: map<nat, Entry>, off: nat, half: nat, o: nat, n: nat)
    requires Within(lb, off, off + half) && Within(rb, off + half, off + half + half)
    requires n > 0 && (o >= half || o + n <= half)
    ensures FreeRun(lb + rb, off + o, n) <==> FreeRun(if o < half then lb else rb, off + o, n)
  {
    var bs := lb + rb;
    if o < half {
      assert forall b :: b in lb ==> b in bs && bs[b] == lb[b];
    } else {
      assert forall b :: b in rb ==> b in bs && bs[b] == rb[b];
    }
  }

  lemma {:induction false} SlotsInside(h: nat, k: nat)
    ensures forall o: nat :: Slot(o, h, k) ==> o + Pow2(k) <= Pow2(h)
  {
    forall o: nat | Slot(o, h, k)
      ensures o + Pow2(k) <= Pow2(h)
    {
      SlotInside(o, h, k);
    }
  }

  lemma {:induction false} SlotInside(o: nat, h: nat, k: nat)
    requires Slot(o, h, k)
    ensures o + Pow2(k) <= Pow2(h)
    decreases h
  {
    if h > k {
      if o < Pow2(h - 1) {
        SlotInside(o, h - 1, k);
      } else {
        SlotInside(o - Pow2(h - 1), h - 1, k);
      }
    }
  }
}
