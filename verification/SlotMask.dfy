/** The 64-bit slot masks of slab.c: a set bit marks a free slot. The bit operations of
    slab_alloc and slab_free are shown to act on the set of used slots. */
module SlotMask {
  import opened Powers
  import opened Words

  const SLOTS_ALL_ZERO: nat := 0
  const SLOTS_FIRST: nat := 1

  /** ~SLOTS_ALL_ZERO >> (64 - n) */
  function EmptyMask(n: nat): nat
    requires n <= 64
  {
    Shr(Not(SLOTS_ALL_ZERO, 64), 64 - n)
  }

  function InitialMask(n: nat): nat
    requires n <= 64
  {
    Xor(EmptyMask(n), SLOTS_FIRST)
  }

  /** __builtin_ctzll: the number of trailing zero bits. */
  function FirstFreeSlot(s: nat): nat
    requires s > 0
  {
    if s % 2 == 1 then 0 else 1 + FirstFreeSlot(s / 2)
  }

  /** ONE_USED_SLOT, with the wrap-around of 0 - 1. */
  predicate OneUsedSlot(s: nat, empty: nat)
    requires s < Pow2(64)
  {
    var x := And(Not(s, 64), empty);
    And(x, if x == 0 then Pow2(64) - 1 else x - 1) == SLOTS_ALL_ZERO
  }

  /** No bit at or above position n. */
  ghost predicate Masked(s: nat, n: nat) {
    forall i: nat :: i >= n ==> !Bit(s, i)
  }

  /** The slots in use, out of n. */
  function Used(s: nat, n: nat): set<nat> {
    set i: nat | i < n && !Bit(s, i)
  }

  lemma EmptyMaskBit(n: nat, i: nat)
    requires n <= 64
    ensures Bit(EmptyMask(n), i) <==> i < n
  {
    hide Bit, Shr, Not, Pow2;
    ShrBit(Not(0, 64), 64 - n, i);
    NotBit(0, 64, 64 - n + i);
    ZeroBit(64 - n + i);
  }

  lemma MaskedFits(s: nat, n: nat)
    requires Masked(s, n) && n <= 64
    ensures s < Pow2(64)
  {
    if s > 0 {
      TopBit(s);
      Pow2Monotone(Log2(s) + 1, 64);
    }
  }

  /** The all-zero mask is the full slab, and the empty mask the empty one. */
  lemma MaskExtremes(s: nat, n: nat)
    requires Masked(s, n) && n <= 64
    ensures s == 0 <==> forall j: nat :: j < n ==> j in Used(s, n)
    ensures s == EmptyMask(n) <==> Used(s, n) == {}
  {
    if s == 0 {
      forall i: nat
        ensures !Bit(s, i)
      {
        ZeroBit(i);
      }
    } else {
      TopBit(s);
      assert Log2(s) !in Used(s, n);
    }
    forall i: nat
      ensures Bit(EmptyMask(n), i) <==> i < n
    {
      EmptyMaskBit(n, i);
    }
    if Used(s, n) == {} {
      forall i: nat
        ensures Bit(s, i) == Bit(EmptyMask(n), i)
      {
        assert i !in Used(s, n);
      }
      SameBits(s, EmptyMask(n));
    }
  }

  lemma InitialMaskUsed(n: nat)
    requires 2 <= n <= 64
    ensures Masked(InitialMask(n), n) && Masked(EmptyMask(n), n)
    ensures Used(InitialMask(n), n) == {0}
    ensures InitialMask(n) != SLOTS_ALL_ZERO && InitialMask(n) != EmptyMask(n)
  {
    var m := InitialMask(n);
    forall i: nat
      ensures Bit(m, i) <==> 0 < i < n
      ensures Bit(EmptyMask(n), i) <==> i < n
    {
      EmptyMaskBit(n, i);
      XorBit(EmptyMask(n), SLOTS_FIRST, i);
      assert SLOTS_FIRST == Pow2(0);
      Pow2Bit(0, i);
    }
    assert 0 in Used(m, n) && 1 !in Used(m, n);
    MaskExtremes(m, n);
  }

  lemma {:induction false} FirstFreeSlotBits(s: nat, i: nat)
    requires s > 0
    ensures Bit(s, FirstFreeSlot(s))
    ensures i < FirstFreeSlot(s) ==> !Bit(s, i)
    decreases s
  {
    if s % 2 == 0 {
      FirstFreeSlotBits(s / 2, if i > 0 then i - 1 else 0);
    }
  }

  /** Taking the first free slot uses that slot and no other. */
  lemma TakeSlot(s: nat, n: nat)
    requires Masked(s, n) && s > 0
    ensures var j := FirstFreeSlot(s);
      var t := Xor(s, Pow2(j));
      && j < n && j !in Used(s, n) && (forall i: nat :: i < j ==> i in Used(s, n))
      && Used(t, n) == Used(s, n) + {j}
      && Masked(t, n)
  {
    var j := FirstFreeSlot(s);
    var t := Xor(s, Pow2(j));
    FirstFreeSlotBits(s, 0);
    forall i: nat
      ensures i < j ==> !Bit(s, i)
      ensures Bit(t, i) == (Bit(s, i) != (i == j))
    {
      FirstFreeSlotBits(s, i);
      XorBit(s, Pow2(j), i);
      Pow2Bit(j, i);
    }
  }

  /** Giving a slot back frees that slot and no other. */
  lemma GiveSlot(s: nat, n: nat, j: nat)
    requires Masked(s, n) && j in Used(s, n)
    ensures var t := Or(s, Pow2(j));
      && Used(t, n) == Used(s, n) - {j}
      && Masked(t, n) && t > 0
      && (s == 0 ==> t == Pow2(j))
  {
    var t := Or(s, Pow2(j));
    forall i: nat
      ensures Bit(t, i) <==> Bit(s, i) || i == j
    {
      OrBit(s, Pow2(j), i);
      Pow2Bit(j, i);
    }
    if t == 0 {
      ZeroBit(j);
      assert !Bit(t, j);
    }
    if s == 0 {
      forall i: nat
        ensures Bit(t, i) == Bit(Pow2(j), i)
      {
        Pow2Bit(j, i);
        ZeroBit(i);
      }
      SameBits(t, Pow2(j));
    }
  }

  lemma SingleBit(x: nat, u: set<nat>, j: nat)
    requires forall i: nat :: Bit(x, i) <==> i in u
    requires j in u
    ensures x > 0 && (IsPow2(x) <==> u == {j})
  {
    ZeroBit(j);
    assert Bit(x, j);
    if IsPow2(x) {
      var e: nat :| x == Pow2(e);
      forall i: nat
        ensures i in u <==> i == e
      {
        Pow2Bit(e, i);
        assert Bit(x, i) <==> i in u;
      }
    }
    if u == {j} {
      forall i: nat
        ensures Bit(x, i) == Bit(Pow2(j), i)
      {
        Pow2Bit(j, i);
      }
      SameBits(x, Pow2(j));
    }
  }

  /** The macro recognises the slabs whose only used slot is the one being freed. */
  lemma OneUsedSlotExact(s: nat, n: nat, j: nat)
    requires Masked(s, n) && n <= 64 && j in Used(s, n)
    ensures s < Pow2(64)
    ensures OneUsedSlot(s, EmptyMask(n)) <==> Used(s, n) == {j}
  {
    MaskedFits(s, n);
    var x := And(Not(s, 64), EmptyMask(n));
    forall i: nat
      ensures Bit(x, i) <==> i in Used(s, n)
    {
      AndBit(Not(s, 64), EmptyMask(n), i);
      NotBit(s, 64, i);
      EmptyMaskBit(n, i);
    }
    SingleBit(x, Used(s, n), j);
    LowestBitTrick(x);
  }

  /** The largest multiple of `size` not above `addr`. */
  function AlignDown(addr: nat, size: nat): nat
    requires size > 0
  {
    addr - addr % size
  }

  lemma AlignmentBit(addr: nat, k: nat, w: nat, i: nat)
    requires addr < Pow2(w) && Pow2(k) <= Pow2(w)
    ensures Bit(And(addr, Not(Pow2(k) - 1, w)), i) <==> Bit(AlignDown(addr, Pow2(k)), i)
  {
    hide Bit, And, Pow2;
    AndBit(addr, Not(Pow2(k) - 1, w), i);
    NotBit(Pow2(k) - 1, w, i);
    LowMaskBit(k, i);
    ClearedBit(addr, k, i);
    if i >= w {
      HighBitsClear(addr, w, i);
    }
  }

  /** addr & ~(size - 1), the alignment mask of slab_free, for a size of 2^k in words of w bits. */
  lemma AlignmentMask(addr: nat, k: nat, w: nat)
    requires addr < Pow2(w) && Pow2(k) <= Pow2(w)
    ensures And(addr, Not(Pow2(k) - 1, w)) == AlignDown(addr, Pow2(k))
  {
    var x: nat, d: nat := And(addr, Not(Pow2(k) - 1, w)), AlignDown(addr, Pow2(k));
    hide Bit, And, Pow2, Not, AlignDown;
    forall i: nat
      ensures Bit(x, i) == Bit(d, i)
    {
      AlignmentBit(addr, k, w, i);
    }
    SameBits(x, d);
  }

  lemma LowMaskBit(k: nat, i: nat)
    ensures Bit(Pow2(k) - 1, i) <==> i < k
  {
    NotBit(0, k, i);
    ZeroBit(i);
  }

  lemma {:induction false} ClearedBit(x: nat, k: nat, i: nat)
    ensures Bit(AlignDown(x, Pow2(k)), i) <==> i >= k && Bit(x, i)
    decreases k
  {
    if k == 0 {
      assert AlignDown(x, 1) == x;
    } else {
      AlignHalf(x, Pow2(k - 1));
      hide AlignDown;
      if i > 0 {
        ClearedBit(x / 2, k - 1, i - 1);
      }
    }
  }

  lemma AlignHalf(x: nat, h: nat)
    requires h > 0
    ensures AlignDown(x, 2 * h) == 2 * AlignDown(x / 2, h)
  {
    HalveRemainder(x, h);
  }

  lemma HalveRemainder(x: nat, h: nat)
    requires h > 0
    ensures x % (2 * h) == 2 * ((x / 2) % h) + x % 2
  {
    var q, r := (x / 2) / h, (x / 2) % h;
    assert x == q * (2 * h) + (2 * r + x % 2) by {
      assert x / 2 == q * h + r;
      assert q * (2 * h) == 2 * (q * h);
    }
    QuotientUnique(x, 2 * h, q, 2 * r + x % 2);
  }
}
