/** The size words nvmalloc keeps inside the memory it manages. Positions are counted in
    cells of BASE_SIZE bytes; the words themselves hold byte counts. */
module NvHeader {
  import opened Powers

  const BASE_SIZE: nat := 64
  const NR_SIZES: nat := 64
  const NEW_ALLOC_PAGES: nat := 1024
  const NIL: nat := 0xFFFF_FFFF_FFFF_FFFF
  const UINT32: nat := 0x1_0000_0000
  /** The cells whose byte count is 2^32. */
  const RUN_CELLS: nat := 0x400_0000
  /** The cells whose bitmap takes 2^31 bytes. */
  const HEAP_CELLS: nat := 0x4_0000_0000
  const UINT64: nat := 0x1_0000_0000_0000_0000

  /** The checksum instruction, of offset and size. */
  type Checksum = (nat, nat) -> nat

  /** The words of one cell: the size, next and time_added fields of the headers that may
      start there. For the client they are payload, except the size word of its block. */
  datatype Cell = Cell(hdr: int, next: nat, time: nat)

  /** crcCompute at cell `c`: the size, with bits 16 to 23 of the checksum in positions 48 to 55. */
  function Encode(k: Checksum, c: nat, size: nat): nat {
    size + (k((BASE_SIZE * c) % UINT32, size) / 0x1_0000 % 256) * 0x1_0000_0000_0000
  }

  /** crcGetSize: the low 32 bits. */
  function GetSize(word: nat): nat {
    word % UINT32
  }

  /** The size survives encoding, the word is positive, and it tells sizes apart. */
  lemma EncodeRoundTrip(k: Checksum, c: nat, size: nat)
    requires size < UINT32
    ensures GetSize(Encode(k, c, size)) == size
    ensures size > 0 ==> Encode(k, c, size) > 0
  {
  }

  /** The words that pass the test of nvfree: nothing above bit 55, bits 16 to 23 of the checksum
      of offset and size in bits 48 to 55, nothing below them down to the size in bits 0 to 31. */
  lemma WordsThatPass(k: Checksum, c: nat, word: nat)
    ensures Encode(k, c, word % 0x1_0000_0000) == word <==>
      && word / 0x100_0000_0000_0000 == 0
      && word / 0x1_0000_0000_0000 % 0x100 == k((64 * c) % 0x1_0000_0000, word % 0x1_0000_0000) / 0x1_0000 % 0x100
      && word / 0x1_0000_0000 % 0x1_0000 == 0
  {
    var size := word % 0x1_0000_0000;
    var sum := k((64 * c) % 0x1_0000_0000, size) / 0x1_0000 % 0x100;
    Fields(word, size, sum);
  }

  lemma Fields(word: nat, size: nat, sum: nat)
    requires size == word % 0x1_0000_0000 && sum < 0x100
    ensures word == size + sum * 0x1_0000_0000_0000 <==>
      && word / 0x100_0000_0000_0000 == 0
      && word / 0x1_0000_0000_0000 % 0x100 == sum
      && word / 0x1_0000_0000 % 0x1_0000 == 0
  {
  }

  /** getBestFit */
  function GetBestFit(size: nat): int {
    if size > NR_SIZES * BASE_SIZE then NR_SIZES
    else if size % BASE_SIZE != 0 then size / BASE_SIZE
    else size / BASE_SIZE - 1
  }

  /** The list of a size holds the sizes between its own bounds. */
  lemma BestFitBounds(size: nat)
    requires size > 0
    ensures 0 <= GetBestFit(size) <= NR_SIZES
    ensures GetBestFit(size) < NR_SIZES ==> GetBestFit(size) * BASE_SIZE < size <= (GetBestFit(size) + 1) * BASE_SIZE
    ensures GetBestFit(size) == NR_SIZES <==> size > NR_SIZES * BASE_SIZE
  {
  }

  /** The rounding at the top of getFreeLocation, in 32-bit arithmetic. */
  function ActualSize(size: nat): nat {
    var index := GetBestFit(size);
    if index < NR_SIZES then
      (if index < 0 then 0 else (index + 1) * BASE_SIZE)
    else if size % BASE_SIZE != 0 then (size - size % BASE_SIZE + BASE_SIZE) % UINT32
    else size
  }

  /** The least number of whole cells that hold `size` bytes. */
  function CellsFor(size: nat): nat {
    (size + BASE_SIZE - 1) / BASE_SIZE
  }

  lemma CellsForBounds(size: nat)
    ensures size <= BASE_SIZE * CellsFor(size) < size + BASE_SIZE
    ensures size <= UINT32 - PAGE_SIZE ==> BASE_SIZE * CellsFor(size) <= UINT32 - PAGE_SIZE
  {
  }

  /** The rounding covers the request exactly when the rounded size is still a uint32_t. */
  lemma ActualSizeExact(size: nat)
    requires 0 < size < UINT32
    ensures size <= UINT32 - BASE_SIZE ==> ActualSize(size) == BASE_SIZE * CellsFor(size) && CellsFor(size) >= 1
    ensures ActualSize(size) >= size <==> size <= UINT32 - BASE_SIZE
  {
  }
}
