/** Sizing and addressing of the shared-memory segment: 64-bit arithmetic, alignment, bucket masking. */
module ShmLayout {
  import opened Arithmetic

  const TWO_TO_THE_64: nat := 0x1_0000_0000_0000_0000
  const SEGMENT_SIZE_MAX: nat := 16 * 1024 * 1024 * 1024

  /** sizeof the segment header (48 bytes) and of the entry struct (512 + 8 + 8 + 4, 64-byte aligned). */
  const HEADER_STRUCT_SIZE: nat := 48
  const ENTRY_STRUCT_SIZE: nat := 576
  /** Where the value starts inside an entry. */
  const VALUE_OFFSET: nat := 532

  /** Bitwise AND of two unsigned words, bit by bit from the least significant one. */
  function BitAnd(x: nat, y: nat): (r: nat)
    ensures r <= y
  {
    if x == 0 || y == 0 then 0 else (x % 2) * (y % 2) + 2 * BitAnd(x / 2, y / 2)
  }

  function Pow2(k: nat): (p: nat)
    ensures p > 0
  {
    if k == 0 then 1 else 2 * Pow2(k - 1)
  }

  /** Masking with a power of two minus one is the remainder modulo that power. */
  lemma {:induction false} MaskIsMod(x: nat, k: nat)
    ensures BitAnd(x, Pow2(k) - 1) == x % Pow2(k)
    decreases k
  {
    if k == 0 {
      assert Pow2(0) == 1;
    } else {
      assert Pow2(k) == 2 * Pow2(k - 1);
      hide BitAnd, Pow2;
      MaskIsMod(x / 2, k - 1);
      MaskStep(x, Pow2(k - 1));
      ModHalves(x, Pow2(k - 1));
    }
  }

  lemma MaskStep(x: nat, p: nat)
    requires p > 0
    ensures BitAnd(x, 2 * p - 1) == x % 2 + 2 * BitAnd(x / 2, p - 1)
  {
  }

  lemma ModHalves(x: nat, p: nat)
    requires p > 0
    ensures x % (2 * p) == x % 2 + 2 * ((x / 2) % p)
  {
    var q, r := (x / 2) / p, (x / 2) % p;
    Recompose(x / 2, p);
    assert x == (2 * p) * q + (2 * r + x % 2) by {
      assert (2 * p) * q == 2 * (p * q);
    }
    DivModUnique(x, 2 * p, q, 2 * r + x % 2);
  }

  lemma {:induction false} Pow2Mono(i: nat, j: nat)
    requires i <= j
    ensures Pow2(i) <= Pow2(j)
    decreases j
  {
    if i < j { Pow2Mono(i, j - 1); }
  }

  lemma Pow2Of31()
    ensures Pow2(31) == 0x8000_0000
  {
    assert Pow2(8) == 256 && Pow2(16) == 65536 && Pow2(24) == 0x100_0000;
  }

  ghost predicate SmallestPow2AtLeast(k: nat, n: int) {
    Pow2(k) >= n && (k == 0 || Pow2(k - 1) < n)
  }

  /** The number of hash buckets: double from 1 until there are at least as many buckets as slots. */
  method BucketCount(sizeMax: int) returns (nbuckets: nat, ghost k: nat)
    requires 0 < sizeMax < 0x8000_0000
    ensures nbuckets == Pow2(k) && SmallestPow2AtLeast(k, sizeMax) && nbuckets <= 0x8000_0000
  {
    nbuckets, k := 1, 0;
    while nbuckets < sizeMax && nbuckets <= 0xFFFF_FFFF / 2
      invariant nbuckets == Pow2(k) && (k == 0 || Pow2(k - 1) < sizeMax) && k <= 31
      decreases sizeMax - nbuckets
    {
      if k == 31 { Pow2Of31(); }
      nbuckets, k := nbuckets * 2, k + 1;
    }
    Pow2Mono(k, 31);
    Pow2Of31();
  }

  /** Unsigned 64-bit arithmetic and the `& ~63` rounding. */
  function U64(x: int): (r: nat)
    ensures r < TWO_TO_THE_64
    ensures 0 <= x < TWO_TO_THE_64 ==> r == x
  {
    x % TWO_TO_THE_64
  }

  function Align64(x: nat): (r: nat)
    ensures r % 64 == 0 && x <= r < x + 64
  {
    (x + 63) / 64 * 64
  }

  function Round64(x: int): (r: nat)
    ensures r < TWO_TO_THE_64
    ensures 0 <= x < TWO_TO_THE_64 - 64 ==> r == Align64(x)
  {
    U64(x + 63) / 64 * 64
  }

  datatype Size = Refused | Total(bytes: nat)

  type int32 = x: int | -0x8000_0000 <= x < 0x8000_0000
  type uint32 = x: int | 0 <= x < 0x1_0000_0000

  function SlotSize(entrySizeMax: int32): (r: nat)
    ensures entrySizeMax > 0 ==> 64 <= r == Align64(entrySizeMax) <= 0x8000_0000
  {
    Round64(U64(entrySizeMax))
  }

  /** The segment size as the code computes it, step by step in 64 bits, with its overflow checks. */
  function SegmentSize(sizeMax: int32, entrySizeMax: int32, nbuckets: uint32, addressMax: nat): Size {
    var headerSize := Round64(HEADER_STRUCT_SIZE);
    var bucketSize := Round64(U64(nbuckets * 4));
    var slotSize := SlotSize(entrySizeMax);
    var slotsSize := U64(Blocks(U64(sizeMax), slotSize));
    var total := U64(64 + headerSize + bucketSize + slotsSize);
    if sizeMax <= 0 || entrySizeMax <= 0 || nbuckets == 0
       || slotsSize / slotSize != U64(sizeMax) || total < slotsSize
       || total > addressMax || total > SEGMENT_SIZE_MAX
    then Refused
    else Total(total)
  }

  /** n blocks of the given size. */
  function Blocks(n: nat, size: nat): nat { n * size }

  /** The size that is really needed, over the integers. */
  function ExactTotal(sizeMax: nat, entrySizeMax: nat, nbuckets: nat): nat {
    64 + Align64(HEADER_STRUCT_SIZE) + Align64(nbuckets * 4) + Blocks(sizeMax, Align64(entrySizeMax))
  }

  function TotalMax(addressMax: nat): nat {
    if addressMax < SEGMENT_SIZE_MAX then addressMax else SEGMENT_SIZE_MAX
  }

  lemma ProductBound(n: nat, size: nat)
    requires n < 0x8000_0000 && 0 < size <= 0x8000_0000
    ensures Blocks(n, size) <= 0x8000_0000 * 0x8000_0000
    ensures Blocks(n, size) / size == n
  {
    DivModUnique(n * size, size, n, 0);
    MultipleIsFar(0x8000_0000 - size, n);
    assert 0x8000_0000 * n == (0x8000_0000 - size) * n + size * n;
  }

  /** For int sizes and a 32-bit bucket count the check is exact: nothing wraps and nothing that fits is refused. */
  lemma SegmentSizeIsExact(sizeMax: int32, entrySizeMax: int32, nbuckets: uint32, addressMax: nat)
    ensures SegmentSize(sizeMax, entrySizeMax, nbuckets, addressMax) ==
            if sizeMax > 0 && entrySizeMax > 0 && nbuckets > 0
               && ExactTotal(sizeMax, entrySizeMax, nbuckets) <= TotalMax(addressMax)
            then Total(ExactTotal(sizeMax, entrySizeMax, nbuckets))
            else Refused
  {
    hide Round64, Align64, Blocks, SlotSize, U64;
    if sizeMax > 0 && entrySizeMax > 0 {
      ProductBound(sizeMax, Align64(entrySizeMax));
    }
  }

  /** The aligned base the code works from, given where the segment is mapped. */
  function Base(raw: nat): nat { Align64(raw) }

  function BucketsAt(raw: nat): nat { Base(raw) + Align64(HEADER_STRUCT_SIZE) }

  /** Address of 1-based slot idx; the stride is the configured entry size rounded up to 64. */
  function SlotAt(raw: nat, nbuckets: nat, entrySizeMax: nat, idx: nat): nat
    requires idx > 0
  {
    BucketsAt(raw) + Align64(nbuckets * 4) + Blocks(idx - 1, Align64(entrySizeMax))
  }

  lemma BlocksMonotone(i: nat, j: nat, size: nat)
    requires i <= j
    ensures Blocks(i, size) + Blocks(j - i, size) == Blocks(j, size)
  {
  }

  lemma OneBlock(size: nat)
    ensures Blocks(1, size) == size
  {
  }

  lemma BlocksAligned(n: nat, size: nat)
    requires size % 64 == 0
    ensures Blocks(n, size) % 64 == 0
  {
    assert n * size == 64 * (n * (size / 64));
    DivModUnique(n * size, 64, n * (size / 64), 0);
  }

  /** Wherever the segment is mapped: the header, the buckets and every slot lie inside it, in that order ... */
  lemma SlotsFitSegment(raw: nat, sizeMax: nat, entrySizeMax: nat, nbuckets: nat, idx: nat)
    requires 0 < idx <= sizeMax
    ensures raw <= Base(raw) && Base(raw) + HEADER_STRUCT_SIZE <= BucketsAt(raw)
    ensures BucketsAt(raw) + nbuckets * 4 <= SlotAt(raw, nbuckets, entrySizeMax, idx)
    ensures SlotAt(raw, nbuckets, entrySizeMax, idx) + entrySizeMax <= raw + ExactTotal(sizeMax, entrySizeMax, nbuckets)
    ensures SlotAt(raw, nbuckets, entrySizeMax, idx) % 64 == 0
  {
    hide Align64, Blocks;
    var stride := Align64(entrySizeMax);
    BlocksMonotone(idx - 1, idx, stride);
    BlocksMonotone(idx, sizeMax, stride);
    BlocksAligned(idx - 1, stride);
    OneBlock(stride);
  }

  /** ... and no two slots overlap. */
  lemma SlotsDisjoint(raw: nat, nbuckets: nat, entrySizeMax: nat, i: nat, j: nat)
    requires 0 < i < j
    ensures SlotAt(raw, nbuckets, entrySizeMax, i) + entrySizeMax <= SlotAt(raw, nbuckets, entrySizeMax, j)
  {
    hide Align64, Blocks;
    var stride := Align64(entrySizeMax);
    BlocksMonotone(i - 1, i, stride);
    BlocksMonotone(i, j - 1, stride);
    OneBlock(stride);
  }

  /** Bytes of a configured entry left for a value; signed, so an undersized entry leaves none. */
  function ValueSizeMax(entrySizeMax: int): int {
    entrySizeMax - ENTRY_STRUCT_SIZE
  }

  /** Values are admitted exactly as long as they are shorter than an entry less 576 bytes, and then they fit. */
  lemma AdmittedValueFits(entrySizeMax: int, keyLength: nat, valueLength: nat)
    ensures valueLength < ValueSizeMax(entrySizeMax) <==> 576 + valueLength < entrySizeMax
    ensures keyLength < 512 && valueLength < ValueSizeMax(entrySizeMax) ==>
              keyLength + 1 <= 512 && VALUE_OFFSET + valueLength + 1 <= entrySizeMax
  {
  }

  /** The size in numbers: header and alignment take 128 bytes, and the limit is 16 GiB. */
  lemma SizeInNumbers(sizeMax: nat, entrySizeMax: nat, nbuckets: nat, addressMax: nat)
    ensures ExactTotal(sizeMax, entrySizeMax, nbuckets) ==
            128 + (4 * nbuckets + 63) / 64 * 64 + sizeMax * ((entrySizeMax + 63) / 64 * 64)
    ensures TotalMax(addressMax) <= addressMax && TotalMax(addressMax) <= 17_179_869_184
    ensures TotalMax(addressMax) == addressMax || TotalMax(addressMax) == 17_179_869_184
  {
  }
}
