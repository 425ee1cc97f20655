/** How buddy_alloc turns a byte count into a page count: the single-precision
    ceiling, the bit-smearing next_pow_of_2, and exactly when the result is too small. */
module Sizing {
  import opened Powers
  import opened Words

  lemma Pow2Constants()
    ensures Pow2(12) == 4096 && Pow2(24) == 0x100_0000
    ensures Pow2(32) == 0x1_0000_0000 && Pow2(44) == 0x1000_0000_0000
  {
    assert Pow2(12) == 4096;
    Pow2Sum(12, 12);
    assert Pow2(8) == 256;
    Pow2Sum(24, 8);
    Pow2Sum(12, 32);
  }

  /** is_pow_of_2 takes a uint32_t, so the argument is truncated; zero passes. */
  predicate IsPowOf2(x: nat) {
    var y := Low32(x);
    y == 0 || And(y, y - 1) == 0
  }

  function Low32(x: nat): nat {
    if x < 0x1_0000_0000 then x else x % 0x1_0000_0000
  }

  function SmearBy(x: nat, k: nat): nat {
    Or(x, Shr(x, k))
  }

  function Smear(x: nat): nat {
    SmearBy(SmearBy(SmearBy(SmearBy(SmearBy(x, 1), 2), 4), 8), 16)
  }

  function NextPow2(x: nat): nat {
    if IsPowOf2(x) then x else Smear(x) + 1
  }

  /** Some bit of `x` in positions [i, i + n) is set. */
  ghost predicate Window(x: nat, i: nat, n: nat) {
    exists j: nat :: i <= j < i + n && Bit(x, j)
  }

  lemma SmearStep(x: nat, y: nat, n: nat)
    requires forall i: nat :: Bit(y, i) <==> Window(x, i, n)
    ensures forall i: nat :: Bit(SmearBy(y, n), i) <==> Window(x, i, 2 * n)
  {
    forall i: nat
      ensures Bit(SmearBy(y, n), i) <==> Window(x, i, 2 * n)
    {
      OrBit(y, Shr(y, n), i);
      ShrBit(y, n, i);
      assert Window(x, i, 2 * n) <==> Window(x, i, n) || Window(x, n + i, n);
    }
  }

  lemma SmearWindow(x: nat)
    ensures forall i: nat :: Bit(Smear(x), i) <==> Window(x, i, 32)
  {
    assert forall i: nat :: Bit(x, i) <==> Window(x, i, 1);
    var a := SmearBy(x, 1);
    var b := SmearBy(a, 2);
    var c := SmearBy(b, 4);
    var d := SmearBy(c, 8);
    SmearStep(x, x, 1);
    SmearStep(x, a, 2);
    SmearStep(x, b, 4);
    SmearStep(x, c, 8);
    SmearStep(x, d, 16);
  }

  lemma FilledWindow(x: nat, p: nat, i: nat)
    requires x > 0 && p == Log2(x) < 32
    ensures Window(x, i, 32) <==> i <= p
  {
    TopBit(x);
    if i > p {
      forall j: nat | i <= j < i + 32
        ensures !Bit(x, j)
      {
        HighBitsClear(x, p + 1, j);
      }
    }
  }

  /** Smearing a word below 2^32 fills every position below its highest set bit. */
  lemma SmearFills(x: nat)
    requires x > 0 && Log2(x) < 32
    ensures Smear(x) == Pow2(Log2(x) + 1) - 1
  {
    var p := Log2(x);
    SmearWindow(x);
    forall i: nat
      ensures Bit(Smear(x), i) <==> Bit(Not(0, p + 1), i)
    {
      NotBit(0, p + 1, i);
      ZeroBit(i);
      FilledWindow(x, p, i);
    }
    SameBits(Smear(x), Not(0, p + 1));
  }

  lemma {:induction false} OrAtLeast(x: nat, y: nat)
    ensures Or(x, y) >= x
  {
    if x > 0 || y > 0 {
      OrAtLeast(x / 2, y / 2);
    }
  }

  lemma SmearAtLeast(x: nat)
    ensures Smear(x) >= x
  {
    var a := SmearBy(x, 1);
    var b := SmearBy(a, 2);
    var c := SmearBy(b, 4);
    var d := SmearBy(c, 8);
    OrAtLeast(x, Shr(x, 1));
    OrAtLeast(a, Shr(a, 2));
    OrAtLeast(b, Shr(b, 4));
    OrAtLeast(c, Shr(c, 8));
    OrAtLeast(d, Shr(d, 16));
  }

  lemma TestIsExact(x: nat)
    requires 0 < x < 0x1_0000_0000
    ensures IsPowOf2(x) <==> IsPow2(x)
  {
    LowestBitTrick(x);
  }

  lemma LogBelow(x: nat, e: nat)
    requires 0 < x < Pow2(e)
    ensures Log2(x) < e
  {
  }

  lemma SmearRoundsUp(x: nat)
    requires x > 0 && Log2(x) < 32 && !IsPow2(x)
    ensures Smear(x) + 1 == CeilPow2(x)
  {
    var p := Pow2(Log2(x) + 1);
    SmearFills(x);
    assert IsPow2(p) && IsPow2(Pow2(Log2(x)));
    CeilPow2Unique(x, p);
  }

  lemma NextPow2Small(x: nat)
    requires 0 < x < 0x1_0000_0000
    ensures NextPow2(x) == CeilPow2(x)
  {
    TestIsExact(x);
    LogBelow(x, 32) by { Pow2Constants(); }
    if IsPow2(x) {
      CeilPow2Unique(x, x);
    } else {
      SmearRoundsUp(x);
    }
  }

  /** next_pow_of_2 is the least power of two not below its argument up to 2^32,
      and never falls under 2^32 beyond. */
  lemma NextPow2Correct(x: nat)
    ensures x == 0 ==> NextPow2(x) == 0
    ensures 0 < x <= 0x1_0000_0000 ==> NextPow2(x) == CeilPow2(x)
    ensures NextPow2(x) >= x
  {
    if 0 < x < 0x1_0000_0000 {
      NextPow2Small(x);
    } else if x == 0x1_0000_0000 {
      assert IsPow2(x) by { Pow2Constants(); }
      CeilPow2Unique(x, x);
    } else {
      SmearAtLeast(x);
    }
  }

  /** `s` rounded to a multiple of `u`, ties to the even multiple. */
  function RoundTo(s: nat, u: nat): nat
    requires u > 0
  {
    var q, r := s / u, s % u;
    (if 2 * r > u || (2 * r == u && q % 2 == 1) then q + 1 else q) * u
  }

  /** Conversion to binary32: 24 significant bits, ties to the even significand
      (sections 3.6 and 4.3.1 of IEEE 754-2008). */
  function FloatOf(s: nat): nat {
    if s == 0 || Log2(s) < 24 then s else RoundTo(s, Pow2(Log2(s) - 23))
  }

  /** ceil(x / PAGE_SIZE); dividing a binary32 number by 4096 is exact. */
  function CeilPages(x: nat): nat {
    (x + PAGE_SIZE - 1) / PAGE_SIZE
  }

  /** The block size in pages that buddy_alloc asks the tree for. */
  function BlockPages(s: nat): nat {
    var size := NextPow2(CeilPages(FloatOf(s)));
    if size == 0 then 1 else size
  }

  /** The block size an exact ceiling would give. */
  function NeededPages(s: nat): nat {
    if s == 0 then 1 else CeilPow2(CeilPages(s))
  }

  /** The requests just above a power of two that the conversion rounds down onto it. */
  predicate RoundedOntoPow2(s: nat) {
    s > 0 && Log2(s) >= 24 && Pow2(Log2(s)) < s <= Pow2(Log2(s)) + Pow2(Log2(s) - 24)
  }

  lemma QuotientRange(q: nat, r: nat, u: nat, m: nat)
    requires r < u && m * u <= q * u + r < 2 * (m * u)
    ensures m <= q < 2 * m
  {
    if q < m {
      MulLe(q + 1, m, u);
    } else if q >= 2 * m {
      MulLe(2 * m, q, u);
    }
  }

  lemma RoundedAbove(q: nat, r: nat, u: nat, m: nat)
    requires r < u && m % 2 == 0 && m <= q < 2 * m
    ensures var f := if 2 * r > u || (2 * r == u && q % 2 == 1) then q + 1 else q;
      && m * u <= f * u <= 2 * (m * u)
      && (f * u == m * u <==> 2 * (q * u + r - m * u) <= u)
  {
    MulLe(q + 1, 2 * m, u);
    MulLe(m, q, u);
    if q > m {
      MulLe(m + 1, q, u);
    }
  }

  /** Rounding to a multiple of u between m u and 2 m u, for even m. */
  lemma RoundedQuotient(s: nat, u: nat, m: nat)
    requires u > 0 && m % 2 == 0 && m * u <= s < 2 * (m * u)
    ensures RoundTo(s, u) == m * u <==> 2 * (s - m * u) <= u
    ensures m * u <= RoundTo(s, u) <= 2 * (m * u)
  {
    var q, r := s / u, s % u;
    assert s == q * u + r;
    QuotientRange(q, r, u, m);
    RoundedAbove(q, r, u, m);
  }

  lemma RoundBetweenPowers(s: nat, e: nat, d: nat)
    requires 0 < d < e && Pow2(e) <= s < Pow2(e + 1)
    ensures RoundTo(s, Pow2(e - d)) == Pow2(e) <==> s <= Pow2(e) + Pow2(e - d - 1)
    ensures Pow2(e) <= RoundTo(s, Pow2(e - d)) <= Pow2(e + 1)
  {
    Pow2Sum(d, e - d);
    RoundedQuotient(s, Pow2(e - d), Pow2(d));
  }

  lemma FloatBelowCarry(s: nat, e: nat)
    requires e >= 24 && Pow2(e) <= s < Pow2(e + 1)
    ensures FloatOf(s) == Pow2(e) <==> s <= Pow2(e) + Pow2(e - 24)
    ensures Pow2(e) <= FloatOf(s) <= Pow2(e + 1)
  {
    Log2Unique(s, e);
    RoundBetweenPowers(s, e, 23);
  }

  /** f is q times u and no multiple of u is nearer to s; of two that are as near, q is even. */
  predicate Nearest(s: nat, f: nat, q: nat, u: nat) {
    && f == q * u
    && 2 * s <= 2 * f + u && 2 * f <= 2 * s + u
    && (2 * s == 2 * f + u || 2 * f == 2 * s + u ==> q % 2 == 0)
  }

  lemma NearestMultiple(s: nat, u: nat) returns (q: nat)
    requires u > 0
    ensures Nearest(s, RoundTo(s, u), q, u) && s / u <= q <= s / u + 1
  {
    hide Nearest;
    var d, r := s / u, s % u;
    q := if 2 * r > u || (2 * r == u && d % 2 == 1) then d + 1 else d;
    assert s == d * u + r;
    RoundedNear(s, u, d, r);
  }

  lemma RoundedNear(s: nat, u: nat, d: nat, r: nat)
    requires r < u && s == d * u + r
    ensures var q := if 2 * r > u || (2 * r == u && d % 2 == 1) then d + 1 else d;
      Nearest(s, q * u, q, u)
  {
    var x, y := d * u, (d + 1) * u;
    assert y == x + u;
  }

  /** The conversion is to the nearest number with 24 significant bits, whose unit in the last
      place is 2^(e - 23), and of two that are as near to the one with the even significand. */
  lemma FloatIsNearest(s: nat, e: nat) returns (q: nat)
    requires Pow2(e) <= s < Pow2(e + 1)
    ensures if e < 24 then FloatOf(s) == s else Nearest(s, FloatOf(s), q, Pow2(e - 23)) && Pow2(23) <= q <= Pow2(24)
  {
    Log2Unique(s, e);
    q := s;
    if e >= 24 {
      Pow2Sum(23, e - 23);
      Pow2Sum(24, e - 23);
      hide Pow2, RoundTo, Nearest;
      q := NearestMultiple(s, Pow2(e - 23));
      DivBounds(s, Pow2(e - 23), Pow2(23), Pow2(24));
    }
  }

  lemma PagesOfPow2(e: nat)
    requires e >= 12
    ensures CeilPages(Pow2(e)) == Pow2(e - 12) && Pow2(e) == PAGE_SIZE * Pow2(e - 12)
  {
    Pow2Sum(12, e - 12);
    Pow2Constants();
  }

  /** A byte count in (2^e, 2^(e+1)] needs a block of exactly 2^(e+1) bytes. */
  lemma PagesAbovePow2(x: nat, e: nat)
    requires e >= 12 && Pow2(e) < x <= Pow2(e + 1)
    ensures CeilPages(x) > 0 && CeilPow2(CeilPages(x)) == Pow2(e - 11)
  {
    PagesOfPow2(e);
    PagesOfPow2(e + 1);
    var p := CeilPages(x);
    assert Pow2(e - 12) < p <= Pow2(e - 11) == 2 * Pow2(e - 12);
    assert IsPow2(Pow2(e - 11));
    CeilPow2Unique(p, Pow2(e - 11));
  }

  lemma BlockOfPages(s: nat, p: nat)
    requires p == CeilPages(FloatOf(s)) && 0 < p <= Pow2(32)
    ensures BlockPages(s) == CeilPow2(p)
  {
    Pow2Constants();
    NextPow2Correct(p);
  }

  lemma CeilPow2OfPow2(e: nat)
    ensures CeilPow2(Pow2(e)) == Pow2(e)
  {
    assert IsPow2(Pow2(e));
    CeilPow2Unique(Pow2(e), Pow2(e));
  }

  lemma LargeBlock(s: nat, e: nat)
    requires 24 <= e && Pow2(e) <= s < Pow2(e + 1) && s <= Pow2(44)
    ensures BlockPages(s) == Pow2(if s <= Pow2(e) + Pow2(e - 24) then e - 12 else e - 11)
  {
    var f := FloatOf(s);
    FloatBelowCarry(s, e);
    LogAtMost(s, e, 44);
    PagesOfPow2(e);
    if f == Pow2(e) {
      Pow2Monotone(e - 12, 32);
      CeilPow2OfPow2(e - 12);
    } else {
      assert e < 44;
      PagesAbovePow2(f, e);
      Pow2Monotone(e - 11, 32);
      assert CeilPages(f) <= CeilPow2(CeilPages(f));
    }
    BlockOfPages(s, CeilPages(f));
  }

  lemma LogAtMost(s: nat, e: nat, b: nat)
    requires Pow2(e) <= s <= Pow2(b)
    ensures e <= b && (e == b ==> s == Pow2(e))
  {
  }

  lemma SmallBlock(s: nat)
    requires 0 < s && Log2(s) < 24
    ensures BlockPages(s) == CeilPow2(CeilPages(s))
  {
    Pow2Monotone(Log2(s) + 1, 24);
    Pow2Constants();
    NextPow2Correct(CeilPages(s));
  }

  /** Up to 2^44 bytes the block is exactly the least sufficient power of two, except
      that requests rounded onto a power of two get half of it. */
  lemma BlockPagesExact(s: nat)
    requires s <= Pow2(44)
    ensures NeededPages(s) == if RoundedOntoPow2(s) then 2 * BlockPages(s) else BlockPages(s)
  {
    if s == 0 {
      NextPow2Correct(0);
    } else if Log2(s) < 24 {
      SmallBlock(s);
    } else {
      var e := Log2(s);
      LargeBlock(s, e);
      assert Pow2(e - 11) == 2 * Pow2(e - 12);
      if s > Pow2(e) {
        PagesAbovePow2(s, e);
      } else {
        PagesOfPow2(e);
        CeilPow2OfPow2(e - 12);
      }
    }
  }

  /** The block holds the request if and only if the request is not rounded onto a
      power of two; it is then less than twice the needed pages. */
  lemma BlockCoversRequest(s: nat)
    requires s <= Pow2(44)
    ensures PAGE_SIZE * BlockPages(s) >= s <==> !RoundedOntoPow2(s)
    ensures s > 0 ==> BlockPages(s) < 2 * CeilPages(s)
    ensures IsPow2(BlockPages(s))
  {
    BlockPagesExact(s);
    NextPow2Correct(CeilPages(FloatOf(s)));
    if RoundedOntoPow2(s) {
      var e := Log2(s);
      PagesAbovePow2(s, e);
      PagesOfPow2(e);
      assert Pow2(e - 11) == 2 * Pow2(e - 12);
    } else if s == 0 {
      assert IsPow2(1) by { assert 1 == Pow2(0); }
    }
  }

  /** Beyond 2^44 bytes the block never fits an arena of fewer than 2^32 pages. */
  lemma HugeRequest(s: nat)
    requires s > Pow2(44)
    ensures BlockPages(s) >= Pow2(32)
  {
    var e := Log2(s);
    if e < 44 {
      Pow2Monotone(e + 1, 44);
    }
    Pow2Monotone(44, e);
    FloatBelowCarry(s, e);
    PagesOfPow2(44);
    NextPow2Correct(CeilPages(FloatOf(s)));
  }

  /** 16 MiB and one byte is given 16 MiB. */
  lemma RoundingWitness()
    ensures PAGE_SIZE * BlockPages(0x100_0001) == 0x100_0000
  {
    Pow2Constants();
    Witness(0x100_0001, 24);
  }

  lemma Witness(s: nat, e: nat)
    requires 24 <= e < 44 && s == Pow2(e) + 1
    ensures PAGE_SIZE * BlockPages(s) == Pow2(e)
  {
    hide BlockPages, Pow2;
    Pow2Double(e);
    Pow2Double(0);
    Pow2Monotone(1, e);
    Pow2Monotone(e + 1, 44);
    LargeBlock(s, e);
    PagesOfPow2(e);
  }
}
