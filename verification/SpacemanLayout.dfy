/** The layout that mkapfs computes for a container on one device, and the
    counts of used blocks that it records (mkapfs/spaceman.c:110-147, 185-214,
    516-584 and mkapfs/mkapfs.h:55-117, 140-155). The block size is always 4096:
    there are 32768 blocks in a chunk, 126 chunks in a chunk-info block and 507
    chunk-info blocks in an address block. */
module SpacemanLayout {
  import opened Prelude

  // ----- Sizes

  function DescBlocks(n: nat): (r: nat)
    ensures r <= 280
  {
    if n < 131072 then 8
    else if n < 262144 then 12
    else if n < 13107200 then 20 + 60 * ((n - 262144) / 131072) / 23
    else 280
  }

  /** Division as in C. */
  function Truncated(a: int, b: nat): int
    requires b > 0
  {
    if a >= 0 then a / b else -(-a / b)
  }

  function DataBlocks(n: nat): (r: nat)
    ensures 52 <= r <= 28000
  {
    if n < 4545 then 52
    else if n < 13633 then 124
    else if n < 36353 then 160 + 36 * ((n - 13633) / 4544)
    else if n < 131777 then 308 + 4 * ((n - 36353) / 4544)
    else if n < 262144 then 648 + 4 * ((n - 131777) / 4544)
    else if n == 262144 then 992
    else if n < 1048576 then
      var off := (n - 262144) / 131072;
      1248 + 488 * off + 4 * Truncated(n - (261280 + off * 131776), 2272)
    else if n < 4063232 then 4112 + 256 * ((n - 1048576) / 131072)
    else if n < 13107200 then 10000 + 256 * ((n - 4063232) / 131072)
    else 27672
  }

  /** The end of the checkpoint areas. */
  function CpointEnd(n: nat): (r: nat)
    ensures 61 <= r <= 28281
  {
    1 + DescBlocks(n) + DataBlocks(n)
  }

  /** The device and internal pool parts of sm_info. */
  datatype Info = Info(
    blockCount: nat, chunkCount: nat, cibCount: nat, cabCount: nat,
    ipBlocks: nat, ipBmSize: nat, ipBase: nat)
  {
    function UsedBlocksEnd(): nat { ipBase + ipBlocks }
    function UsedChunksEnd(): nat { (UsedBlocksEnd() + 32767) / 32768 }
    function FirstBitmap(): nat { ipBase }
    function FirstCib(): nat { FirstBitmap() + UsedChunksEnd() }
    function FirstCab(): nat { FirstCib() + cibCount }
  }

  /** calculate_dev_info() and set_spaceman_info(), for a single device. */
  function SetInfo(n: nat): (r: Option<Info>)
  {
    var chunks := (n + 32767) / 32768;
    var cibs := (chunks + 125) / 126;
    var allCabs := (cibs + 506) / 507;
    var cabs := if allCabs == 1 then 0 else allCabs;
    var ipBlocks := (chunks + cibs + cabs) * 3;
    var size := (ipBlocks + 32767) / 32768;
    if cabs > 1000 || ipBlocks > n / 2 then None
    else Some(Info(n, chunks, cibs, cabs, ipBlocks, size, CpointEnd(n) + 10 + 16 * size))
  }

  // ----- The allocation bitmap

  /** The blocks that mkapfs allocates. */
  predicate InUse(i: Info, b: nat)
  {
    b < CpointEnd(i.blockCount) + 8 || CpointEnd(i.blockCount) + 10 <= b < i.UsedBlocksEnd()
  }

  method MarkUsed(bits: array<bool>, first: nat, count: nat)
    requires first + count <= bits.Length
    modifies bits
    ensures forall b: nat | b < bits.Length :: bits[b] == (old(bits[b]) || first <= b < first + count)
  {
    for i := first to first + count
      invariant forall b: nat | b < bits.Length :: bits[b] == (old(bits[b]) || first <= b < i)
    {
      bits[i] := true;
    }
  }

  /** make_main_alloc_bitmap() */
  method MakeMainBitmap(i: Info) returns (bits: array<bool>)
    requires i.ipBase == CpointEnd(i.blockCount) + 10 + 16 * i.ipBmSize
    ensures fresh(bits) && bits.Length == 32768 * i.UsedChunksEnd()
    ensures forall b: nat | b < bits.Length :: bits[b] == InUse(i, b)
  {
    var n := i.blockCount;
    var desc, data, end := DescBlocks(n), DataBlocks(n), CpointEnd(n);
    bits := new bool[32768 * i.UsedChunksEnd()](_ => false);
    MarkUsed(bits, 0, 1);
    MarkUsed(bits, 1, desc);
    MarkUsed(bits, 1 + desc, data);
    MarkUsed(bits, end, 2);
    MarkUsed(bits, end + 2, 6);
    MarkUsed(bits, end + 10, 16 * i.ipBmSize);
    MarkUsed(bits, i.ipBase, i.ipBlocks);
  }

  /** make_ip_bitmap(): the blocks of the internal pool that are in use at first. */
  method MakeIpBitmap(i: Info) returns (bits: array<bool>)
    requires i.FirstCab() + i.cabCount <= i.ipBase + 32768 * i.ipBmSize
    ensures fresh(bits) && bits.Length == 32768 * i.ipBmSize
    ensures forall b: nat | b < bits.Length :: bits[b] == (b < i.UsedChunksEnd() + i.cibCount + i.cabCount)
  {
    bits := new bool[32768 * i.ipBmSize](_ => false);
    MarkUsed(bits, i.FirstCab() - i.ipBase, i.cabCount);
    MarkUsed(bits, i.FirstCib() - i.ipBase, i.cibCount);
    MarkUsed(bits, i.FirstBitmap() - i.ipBase, i.UsedChunksEnd());
  }

  /** The number of allocated blocks from a to b. */
  function CountUsed(i: Info, a: nat, b: nat): (r: nat)
    ensures r <= if a <= b then b - a else 0
    decreases b - a
  {
    if a >= b then 0 else (if InUse(i, a) then 1 else 0) + CountUsed(i, a + 1, b)
  }

  lemma {:induction false} CountSplit(i: Info, a: nat, m: nat, b: nat)
    requires a <= m <= b
    ensures CountUsed(i, a, b) == CountUsed(i, a, m) + CountUsed(i, m, b)
    decreases m - a
  {
    if a < m {
      CountSplit(i, a + 1, m, b);
    }
  }

  lemma {:induction false} CountAll(i: Info, a: nat, b: nat)
    requires a <= b && forall k: nat | a <= k < b :: InUse(i, k)
    ensures CountUsed(i, a, b) == b - a
    decreases b - a
  {
    if a < b {
      CountAll(i, a + 1, b);
    }
  }

  lemma {:induction false} CountNone(i: Info, a: nat, b: nat)
    requires a <= b && forall k: nat | a <= k < b :: !InUse(i, k)
    ensures CountUsed(i, a, b) == 0
    decreases b - a
  {
    if a < b {
      CountNone(i, a + 1, b);
    }
  }

  // ----- What mkapfs records

  /** Subtraction of unsigned 64-bit numbers. */
  function Minus(a: nat, b: nat): int
  {
    if a >= b then a - b else 0x1_0000_0000_0000_0000 + a - b
  }

  function FirstChunkPool(i: Info): int
  {
    if i.ipBlocks < Minus(32768, i.ipBase) then i.ipBlocks else Minus(32768, i.ipBase)
  }

  /** count_used_blocks_in_chunk(), with its conversions to 32 bits. */
  function UsedInChunk(i: Info, chunkno: nat): (r: int)
  {
    var first := FirstChunkPool(i) % 0x1_0000_0000;
    if chunkno >= i.UsedChunksEnd() then 0
    else if i.UsedBlocksEnd() == 1 then 1
    else if chunkno == 0 then (CpointEnd(i.blockCount) + 8 + 16 * i.ipBmSize + first) % 0x1_0000_0000
    else if chunkno != i.UsedChunksEnd() - 1 then 32768
    else Minus(i.ipBlocks, first) % 32768
  }

  /** When the recorded counts are right: the internal pool starts in the first
      chunk, or just after it, and it does not end together with a later one. */
  predicate CountsFit(i: Info)
  {
    i.ipBase <= 32768 && (i.UsedChunksEnd() == 1 || i.UsedBlocksEnd() % 32768 != 0)
  }

  /** A layout that set_spaceman_info() can produce. */
  predicate Made(i: Info)
  {
    && i.ipBase == CpointEnd(i.blockCount) + 10 + 16 * i.ipBmSize
    && 6 <= i.ipBlocks < 0x4000_0000 && i.ipBmSize < 0x1_0000
  }

  /** The number of blocks that are really allocated in a chunk. */
  lemma UsedFirst(i: Info)
    requires Made(i) && i.ipBase <= 32768
    ensures CountUsed(i, 0, 32768) == CpointEnd(i.blockCount) + 8 + 16 * i.ipBmSize + (if i.UsedBlocksEnd() <= 32768 then i.ipBlocks else 32768 - i.ipBase)
  {
    hide CpointEnd, CountUsed;
    var c := CpointEnd(i.blockCount);
    var end := if i.UsedBlocksEnd() <= 32768 then i.UsedBlocksEnd() else 32768;
    CountSplit(i, 0, c + 8, 32768);
    CountSplit(i, c + 8, c + 10, 32768);
    CountSplit(i, c + 10, end, 32768);
    CountAll(i, 0, c + 8);
    CountNone(i, c + 8, c + 10);
    CountAll(i, c + 10, end);
    CountNone(i, end, 32768);
  }

  lemma UsedLater(i: Info, k: nat)
    requires Made(i) && i.ipBase <= 32768 && 0 < k < i.UsedChunksEnd()
    ensures CountUsed(i, 32768 * k, 32768 * k + 32768) ==
            if k != i.UsedChunksEnd() - 1 then 32768 else i.UsedBlocksEnd() - 32768 * k
  {
    hide CpointEnd, CountUsed;
    var a := 32768 * k;
    if k != i.UsedChunksEnd() - 1 {
      CountAll(i, a, a + 32768);
    } else {
      var end := i.UsedBlocksEnd();
      CountSplit(i, a, end, a + 32768);
      CountAll(i, a, end);
      CountNone(i, end, a + 32768);
    }
  }

  /** The recorded count of a chunk is the one in the bitmap. */
  predicate Right(i: Info, k: nat)
  {
    UsedInChunk(i, k) == CountUsed(i, 32768 * k, 32768 * k + 32768)
  }

  lemma TooFar(i: Info)
    requires Made(i) && i.ipBase > 32768
    ensures !Right(i, 0)
  {
    hide CpointEnd, InUse, CountUsed;
    assert FirstChunkPool(i) == i.ipBlocks;
    assert UsedInChunk(i, 0) > 32768;
  }

  lemma RightFirst(i: Info)
    requires Made(i) && i.ipBase <= 32768
    ensures Right(i, 0)
  {
    hide CpointEnd, InUse, CountUsed;
    UsedFirst(i);
  }

  lemma RightLater(i: Info, k: nat)
    requires Made(i) && i.ipBase <= 32768 && 0 < k < i.UsedChunksEnd()
    ensures Right(i, k) <==> k != i.UsedChunksEnd() - 1 || i.UsedBlocksEnd() % 32768 != 0
  {
    hide CpointEnd, InUse, CountUsed;
    UsedLater(i, k);
    if k == i.UsedChunksEnd() - 1 {
      assert FirstChunkPool(i) == 32768 - i.ipBase;
      assert UsedInChunk(i, k) == (i.UsedBlocksEnd() - 32768) % 32768;
    }
  }

  /** The recorded counts are those of the bitmap exactly when they fit. */
  lemma RecordedCounts(i: Info)
    requires Made(i)
    ensures CountsFit(i) <==> forall k: nat | k < i.UsedChunksEnd() :: Right(i, k)
  {
    hide Right, CpointEnd;
    if i.ipBase > 32768 {
      TooFar(i);
    } else {
      RightFirst(i);
      var last := i.UsedChunksEnd() - 1;
      forall k: nat | 0 < k < i.UsedChunksEnd()
        ensures Right(i, k) <==> k != last || i.UsedBlocksEnd() % 32768 != 0
      {
        RightLater(i, k);
      }
      assert last > 0 ==> (Right(i, last) <==> i.UsedBlocksEnd() % 32768 != 0);
    }
  }

  // ----- Every layout

  /** What set_spaceman_info() computes, for any device that mkapfs accepts (512 KiB
      at least), fits the device; and the internal pool has room for the chunk
      bitmaps, the chunk-info blocks and the address blocks. */
  lemma LayoutFits(n: nat)
    requires n >= 128 && SetInfo(n).Some?
    ensures var i := SetInfo(n).value;
            && Made(i) && i.UsedBlocksEnd() <= n && i.UsedChunksEnd() <= i.chunkCount
            && i.FirstCab() + i.cabCount <= i.ipBase + i.ipBlocks
  {
    var i := SetInfo(n).value;
    CpointSmall(n);
    assert i.ipBmSize <= i.ipBlocks / 32768 + 1;
  }

  /** c is the least number of groups of w that n things fit in. */
  predicate Least(c: int, n: int, w: nat)
  {
    w * (c - 1) < n <= w * c
  }

  /** There is a layout unless the device would need more than 1000 address blocks;
      and each of its numbers is the least one that will do. */
  lemma LayoutIs(n: nat)
    requires n >= 128
    ensures SetInfo(n).Some? <==> n <= 1000 * 507 * 126 * 32768
    ensures SetInfo(n).Some? ==>
              var i := SetInfo(n).value;
              && i.blockCount == n && Least(i.chunkCount, n, 32768) && Least(i.cibCount, i.chunkCount, 126)
              && (if i.cibCount <= 507 then i.cabCount == 0 else Least(i.cabCount, i.cibCount, 507))
              && i.ipBlocks == 3 * (i.chunkCount + i.cibCount + i.cabCount) && Least(i.ipBmSize, i.ipBlocks, 32768)
              && i.ipBase == CpointEnd(n) + 10 + 16 * i.ipBmSize
  {
    hide CpointEnd;
  }

  /** n is in step k of those of some width that begin at `first`. */
  predicate InStep(n: nat, first: nat, width: nat, k: nat)
  {
    first + width * k <= n < first + width * (k + 1)
  }

  /** Up to 1 GiB and from 50 GiB on the descriptor area has one of a few sizes; in
      between it grows with every 512 MiB. */
  lemma DescSteps(n: nat, k: nat)
    ensures n < 131072 ==> DescBlocks(n) == 8
    ensures 131072 <= n < 262144 ==> DescBlocks(n) == 12
    ensures n < 13107200 && InStep(n, 262144, 131072, k) ==> 23 * (DescBlocks(n) - 20) <= 60 * k < 23 * (DescBlocks(n) - 19)
    ensures n >= 13107200 ==> DescBlocks(n) == 280
  {
    if n < 13107200 && InStep(n, 262144, 131072, k) {
      DescGrows(n, k);
    }
  }

  lemma DescGrows(n: nat, k: nat)
    requires n < 13107200 && InStep(n, 262144, 131072, k)
    ensures 23 * (DescBlocks(n) - 20) <= 60 * k < 23 * (DescBlocks(n) - 19)
  {
    assert (n - 262144) / 131072 == k;
    var q := 60 * k / 23;
    assert DescBlocks(n) == 20 + q;
  }

  /** The data area grows in steps too, of different widths and heights. */
  lemma DataSteps(n: nat, k: nat)
    ensures n < 4545 ==> DataBlocks(n) == 52
    ensures 4545 <= n < 13633 ==> DataBlocks(n) == 124
    ensures n < 36353 && InStep(n, 13633, 4544, k) ==> DataBlocks(n) == 160 + 36 * k
    ensures n < 131777 && InStep(n, 36353, 4544, k) ==> DataBlocks(n) == 308 + 4 * k
    ensures n < 262144 && InStep(n, 131777, 4544, k) ==> DataBlocks(n) == 648 + 4 * k
    ensures n == 262144 ==> DataBlocks(n) == 992
    ensures n < 4063232 && InStep(n, 1048576, 131072, k) ==> DataBlocks(n) == 4112 + 256 * k
    ensures n < 13107200 && InStep(n, 4063232, 131072, k) ==> DataBlocks(n) == 10000 + 256 * k
    ensures n >= 13107200 ==> DataBlocks(n) == 27672
  {
  }

  /** Between 1 and 4 GiB there are small steps within the large ones; where a large one
      starts before its small ones do, they count down to zero. */
  lemma DataStepsWithin(n: nat, k: nat, j: nat)
    requires 262144 < n < 1048576 && InStep(n, 262144, 131072, k)
    ensures InStep(n, 261280 + 131776 * k, 2272, j) ==> DataBlocks(n) == 1248 + 488 * k + 4 * j
    ensures n <= 261280 + 131776 * k && InStep(261280 + 131776 * k - n, 0, 2272, j) ==> DataBlocks(n) == 1248 + 488 * k - 4 * j
  {
    assert (n - 262144) / 131072 == k;
  }

  /** The bitmap of the internal pool has a bit for each of its blocks. */
  lemma PoolFits(n: nat)
    requires n >= 128 && SetInfo(n).Some?
    ensures var i := SetInfo(n).value; i.ipBlocks <= 32768 * i.ipBmSize
  {
    hide CpointEnd;
  }

  lemma CpointSmall(n: nat)
    requires n >= 128
    ensures CpointEnd(n) + 32 <= n - n / 2 - n / 100 || n < 4545
    ensures n < 4545 ==> CpointEnd(n) == 61
  {
  }

  /** On a device of this size, about 2.8 TiB, the internal pool ends together
      with the third chunk, and the count recorded for it is wrong. */
  lemma WrongCount()
    ensures var i := SetInfo(761724928);
            i.Some? && !CountsFit(i.value) && !Right(i.value, 2) && UsedInChunk(i.value, 2) == 0
  {
    var i := SetInfo(761724928).value;
    assert i.ipBase == 28011 && i.ipBlocks == 70293;
    RightLater(i, 2);
  }
}
