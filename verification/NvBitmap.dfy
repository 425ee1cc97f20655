/** The bitmap of nvmalloc: one bit for each cell, walked with a byte index and a mask. */
module NvBitmap {
  import opened Powers
  import opened Words
  import opened NvHeader
  import opened NvHeap

  ghost predicate Bytes(bm: seq<nat>) {
    forall i :: 0 <= i < |bm| ==> bm[i] < 256
  }

  /** The marks a bitmap stands for. */
  function Bits(bm: seq<nat>): (s: seq<bool>)
    ensures |s| == 8 * |bm|
  {
    seq(8 * |bm|, c requires 0 <= c < 8 * |bm| => Bit(bm[c / 8], c % 8))
  }

  /** The byte and the mask of cell `c`. */
  predicate At(c: nat, index: nat, mask: nat) {
    index == c / 8 && mask == Pow2(c % 8)
  }

  /** Conversion to int32_t. */
  function Int32(x: nat): int {
    var y := x % UINT32;
    if y < UINT32 / 2 then y else y - UINT32
  }

  /** The int32_t byte index of isFreeBackward is right exactly for heaps below 2^40 bytes. */
  lemma IndexFits(c: nat)
    ensures Int32(c / 8) == c / 8 <==> c < HEAP_CELLS
  {
  }

  lemma AtStart(c: nat)
    ensures At(c, c / 8, Pow2(c % 8))
  {
  }

  lemma ClearDown(occ: seq<bool>, a: nat, b: nat)
    requires a < b && Clear(occ, a + 1, b) && a < |occ| && !occ[a]
    ensures Clear(occ, a, b)
  {
  }

  lemma ClearUp(occ: seq<bool>, a: nat, b: nat)
    requires Clear(occ, a, b) && b < |occ| && !occ[b]
    ensures Clear(occ, a, b + 1)
  {
  }

  lemma ClearNone(occ: seq<bool>, a: nat)
    requires a <= |occ|
    ensures Clear(occ, a, a)
  {
  }

  lemma SmallPowers()
    ensures Pow2(0) == 1 && Pow2(1) == 2 && Pow2(2) == 4 && Pow2(3) == 8
    ensures Pow2(4) == 16 && Pow2(5) == 32 && Pow2(6) == 64 && Pow2(7) == 128 && Pow2(8) == 256
  {
  }

  lemma MaskEnds(i: nat)
    requires i < 8
    ensures Pow2(i) == 128 <==> i == 7
    ensures Pow2(i) == 1 <==> i == 0
    ensures Pow2(i) <= 128
    ensures i > 0 ==> Pow2(i) / 2 == Pow2(i - 1)
    ensures Pow2(i + 1) == 2 * Pow2(i)
  {
    hide Pow2;
    SmallPowers();
    assert i == 0 || i == 1 || i == 2 || i == 3 || i == 4 || i == 5 || i == 6 || i == 7;
  }

  /** One step up: past the last bit of a byte comes the first bit of the next one. */
  lemma StepUp(c: nat, index: nat, mask: nat)
    requires At(c, index, mask)
    ensures At(c + 1, if mask == 128 then index + 1 else index, if mask == 128 then 1 else 2 * mask)
    ensures (c + 1) / 8 == if mask == 128 then index + 1 else index
  {
    MaskEnds(c % 8);
  }

  /** One step down, where the walk ends at cell 0. */
  lemma StepDown(c: nat, index: nat, mask: nat)
    requires At(c, index, mask)
    ensures mask == 1 && index == 0 <==> c == 0
    ensures c > 0 ==> At(c - 1, if mask == 1 then (index as int) - 1 else index, if mask == 1 then 128 else mask / 2)
    ensures c > 0 ==> (c - 1) / 8 == if mask == 1 then (index as int) - 1 else index
  {
    MaskEnds(c % 8);
  }

  lemma BitsAt(bm: seq<nat>, c: nat, index: nat, mask: nat)
    requires At(c, index, mask) && c < 8 * |bm|
    ensures index < |bm| && |Bits(bm)| == 8 * |bm|
    ensures Bits(bm)[c] == Bit(bm[index], c % 8)
  {
    hide Bit;
  }

  lemma TestCell(bm: seq<nat>, c: nat, index: nat, mask: nat)
    requires At(c, index, mask) && c < 8 * |bm|
    ensures index < |bm| && |Bits(bm)| == 8 * |bm|
    ensures And(bm[index], mask) != 0 <==> Bits(bm)[c]
  {
    hide And, Bit, Pow2;
    BitsAt(bm, c, index, mask);
    MaskTest(bm[index], c % 8);
  }

  lemma ByteBits(x: nat, w: nat)
    requires forall i: nat :: i >= w ==> !Bit(x, i)
    ensures x < Pow2(w)
  {
    hide Bit;
    if x > 0 {
      TopBit(x);
      Pow2Monotone(Log2(x) + 1, w);
    }
  }

  /** A byte with the bits of the mask set, as in makeOne, or cleared, as in makeZero. */
  function NewByte(byte: nat, mask: nat, v: bool): nat
    requires mask < Pow2(8)
  {
    if v then Or(byte, mask) else And(byte, Not(mask, 8))
  }

  lemma NewByteBit(byte: nat, mask: nat, i: nat, v: bool, j: nat)
    requires byte < 256 && i < 8 && mask == Pow2(i) && mask < Pow2(8)
    ensures Bit(NewByte(byte, mask, v), j) == (if j == i then v else Bit(byte, j))
    ensures j >= 8 ==> !Bit(NewByte(byte, mask, v), j)
  {
    hide And, Or, Not, Bit, Pow2;
    SmallPowers();
    Pow2Bit(i, j);
    if v {
      OrBit(byte, mask, j);
    } else {
      AndBit(byte, Not(mask, 8), j);
      NotBit(mask, 8, j);
    }
    if j >= 8 {
      HighBitsClear(byte, 8, j);
    }
  }

  lemma NewByteFits(byte: nat, mask: nat, i: nat, v: bool)
    requires byte < 256 && i < 8 && mask == Pow2(i)
    ensures mask < Pow2(8) && NewByte(byte, mask, v) < 256
  {
    hide NewByte, Bit, Pow2;
    SmallPowers();
    Pow2Monotone(i, 8);
    MaskEnds(i);
    forall j: nat | j >= 8
      ensures !Bit(NewByte(byte, mask, v), j)
    {
      NewByteBit(byte, mask, i, v, j);
    }
    ByteBits(NewByte(byte, mask, v), 8);
  }

  lemma WriteCell(bm: seq<nat>, c: nat, index: nat, mask: nat, v: bool)
    requires Bytes(bm) && At(c, index, mask) && c < 8 * |bm|
    ensures index < |bm| && |Bits(bm)| == 8 * |bm| && mask < Pow2(8)
    ensures var bm' := bm[index := NewByte(bm[index], mask, v)];
      Bytes(bm') && Bits(bm') == Bits(bm)[c := v]
  {
    hide NewByte, Bit, Pow2;
    NewByteFits(bm[index], mask, c % 8, v);
    var bm' := bm[index := NewByte(bm[index], mask, v)];
    var marks := Bits(bm)[c := v];
    forall d: nat | d < 8 * |bm|
      ensures Bits(bm')[d] == marks[d]
    {
      NewByteBit(bm[index], mask, c % 8, v, d % 8);
    }
  }

  lemma MarkedStep(occ: seq<bool>, a: nat, n: nat, v: bool)
    requires a + n < |occ|
    ensures |Marked(occ, a, n, v)| == |occ|
    ensures Marked(occ, a, n, v)[a + n := v] == Marked(occ, a, n + 1, v)
  {
  }

  /** New bytes of zeros leave the old marks and add clear cells. */
  lemma BitsGrow(bm: seq<nat>, zeros: seq<nat>)
    requires forall i :: 0 <= i < |zeros| ==> zeros[i] == 0
    ensures Bits(bm + zeros) == Bits(bm) + seq(8 * |zeros|, i => false)
  {
    hide Bit;
    var s := Bits(bm + zeros);
    forall c | 0 <= c < |s|
      ensures s[c] == (Bits(bm) + seq(8 * |zeros|, i => false))[c]
    {
      ZeroBit(c % 8);
    }
  }

  lemma ZeroBits(bm: seq<nat>)
    requires forall i :: 0 <= i < |bm| ==> bm[i] == 0
    ensures Bytes(bm) && Clear(Bits(bm), 0, 8 * |bm|)
  {
    hide Bit;
    forall c: nat | c < 8 * |bm|
      ensures !Bits(bm)[c]
    {
      ZeroBit(c % 8);
    }
  }
}
