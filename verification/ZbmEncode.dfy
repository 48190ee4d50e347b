/** The LZBITMAP encoder (lib/libzbitmap.c:441-1180): what it computes, as
    functions. Positions are absolute offsets in the source buffer, so the bytes
    already coded are exactly the ones before the current position. */
module ZbmEncode {
  import opened Prelude
  import opened ZbmFormat

  /** One bitmap applied to up to eight bytes, and the period it was made for. */
  datatype Op = Op(bmap: Bmap, period: nat)

  const MIN_PERIOD := 8
  const MAX_PERIOD := 0xffff

  // ----- zbm_find_good_pattern

  function ByteDiff(a: seq<byte>, b: seq<byte>): (n: nat)
    requires |a| == |b|
  {
    if a == [] then 0 else (if a[0] != b[0] then 1 else 0) + ByteDiff(a[1..], b[1..])
  }

  /** The next eight bytes to code, with zeroes after the end of the chunk. */
  function Needle(src: seq<byte>, pos: nat, n: nat): (s: seq<byte>)
    requires n <= 8 && pos + n <= |src|
    ensures |s| == 8
  {
    src[pos..pos + n] + Zeros(8 - n)
  }

  function Cost(src: seq<byte>, at: nat, pos: nat, n: nat): (c: nat)
    requires n <= 8 && at + 8 <= pos && pos + n <= |src|
  {
    ByteDiff(src[at..at + 8], Needle(src, pos, n))
  }

  datatype Best = Best(at: nat, cost: nat)

  ghost predicate ValidPlace(pos: nat, at: nat)
  {
    at + MIN_PERIOD <= pos <= at + MAX_PERIOD
  }

  /** First pass: every place that a one-byte period can reach. */
  function ScanNear(src: seq<byte>, pos: nat, n: nat, at: nat, best: Best): (b: Best)
    requires n <= 8 && pos + n <= |src| && ValidPlace(pos, best.at) && pos <= at + 0xff
    ensures ValidPlace(pos, b.at)
    decreases pos - at
  {
    if at + 8 > pos then best
    else
      var diff := Cost(src, at, pos, n);
      if diff + 1 < best.cost then
        if diff == 0 then Best(at, 1) else ScanNear(src, pos, n, at + 1, Best(at, diff + 1))
      else ScanNear(src, pos, n, at + 1, best)
  }

  /** Second pass: farther places, but only those that start with the same byte. */
  function ScanFar(src: seq<byte>, pos: nat, n: nat, at: nat, split: nat, best: Best): (b: Best)
    requires 0 < n <= 8 && pos + n <= |src| && split + 8 <= pos && ValidPlace(pos, best.at) && pos <= at + 0xffff
    ensures ValidPlace(pos, b.at)
    decreases split - at
  {
    if at >= split then best
    else if src[at] != src[pos] then ScanFar(src, pos, n, at + 1, split, best)
    else
      var diff := Cost(src, at, pos, n);
      if diff + 2 < best.cost then
        if diff == 0 then Best(at, 2) else ScanFar(src, pos, n, at + 1, split, Best(at, diff + 2))
      else ScanFar(src, pos, n, at + 1, split, best)
  }

  function GoodPattern(src: seq<byte>, pos: nat, n: nat, period: nat): (at: nat)
    requires 0 < n <= 8 && pos + n <= |src| && MIN_PERIOD <= period <= Min(pos, MAX_PERIOD)
    ensures ValidPlace(pos, at)
  {
    var same := Best(pos - period, Cost(src, pos - period, pos, n));
    if same.cost <= 1 then same.at
    else
      var split := pos - Min(0xff, pos);
      var near := ScanNear(src, pos, n, split, same);
      if near.cost <= 2 then near.at
      else ScanFar(src, pos, n, pos - Min(0xffff, pos), split, near).at
  }

  // ----- zbm_calculate_bitmap, zbm_append_new_bitmap

  function CalcBitmapFrom(src: seq<byte>, at: nat, pos: nat, n: nat, i: nat, acc: byte): (b: byte)
    requires i <= n <= 8 && at < pos && pos + n <= |src|
    requires forall j: nat | j < 8 :: Bit(acc, j) == (j < i && src[at + j] != src[pos + j])
    ensures forall j: nat | j < 8 :: Bit(b, j) == (j < n && src[at + j] != src[pos + j])
    decreases n - i
  {
    if i == n then acc
    else
      SetBitBits(acc, i, src[at + i] != src[pos + i]);
      CalcBitmapFrom(src, at, pos, n, i + 1, SetBit(acc, i, src[at + i] != src[pos + i]))
  }

  function CalcBitmap(src: seq<byte>, at: nat, pos: nat, n: nat): (b: byte)
    requires n <= 8 && at < pos && pos + n <= |src|
    ensures forall j: nat | j < 8 :: Bit(b, j) == (j < n && src[at + j] != src[pos + j])
  {
    ZeroBits();
    CalcBitmapFrom(src, at, pos, n, 0, 0)
  }

  function PeriodBytecnt(period: nat, last: nat): (cnt: nat)
    ensures cnt <= MAX_PERIOD_BYTECNT
    ensures cnt == 0 <==> period == last
    ensures period != last ==> (cnt == 1 <==> period < 256)
  {
    if period == last then 0 else if period <= 0xff then 1 else 2
  }

  function NewOp(src: seq<byte>, pos: nat, n: nat, period: nat): (op: Op)
    requires 0 < n <= 8 && pos + n <= |src| && MIN_PERIOD <= period <= Min(pos, MAX_PERIOD)
    ensures MIN_PERIOD <= op.period <= Min(pos, MAX_PERIOD)
    ensures op.bmap.periodBytecnt <= MAX_PERIOD_BYTECNT
  {
    var at := GoodPattern(src, pos, n, period);
    Op(Bmap(CalcBitmap(src, at, pos, n), PeriodBytecnt(pos - at, period)), pos - at)
  }

  // ----- zbm_write_new_data: the cursor is tested before every byte, written or not

  function WriteNew(src: seq<byte>, pos: nat, n: nat, bitmap: byte, i: nat, w: nat, limit: nat): (r: Option<seq<byte>>)
    requires i <= n <= 8 && pos + n <= |src|
    decreases n - i
  {
    if i == n then Some([])
    else if w == limit then None
    else if Bit(bitmap, i) then
      var rest := WriteNew(src, pos, n, bitmap, i + 1, w + 1, limit);
      if rest.None? then None else Some([src[pos + i]] + rest.value)
    else WriteNew(src, pos, n, bitmap, i + 1, w, limit)
  }

  // ----- the main loop of zbm_build_compressed_chunk

  datatype Coded = Coded(ops: seq<Op>, lits: seq<byte>)

  predicate SmallCounts(ops: seq<Op>)
  {
    forall i | 0 <= i < |ops| :: ops[i].bmap.periodBytecnt <= MAX_PERIOD_BYTECNT
  }

  function EncodeOps(src: seq<byte>, end: nat, pos: nat, period: nat, w: nat, limit: nat): (r: Option<Coded>)
    requires pos <= end <= |src| && MIN_PERIOD <= period <= Min(pos, MAX_PERIOD)
    ensures r.Some? ==> SmallCounts(r.value.ops)
    decreases end - pos
  {
    if pos == end then Some(Coded([], []))
    else
      var n := Min(8, end - pos);
      var op := NewOp(src, pos, n, period);
      var lit := WriteNew(src, pos, n, op.bmap.bitmap, 0, w, limit);
      if lit.None? then None
      else
        var rest := EncodeOps(src, end, pos + n, op.period, w + |lit.value|, limit);
        if rest.None? then None else Some(Coded([op] + rest.value.ops, lit.value + rest.value.lits))
  }

  /** The first chunk starts with eight literals, as there is nothing to copy. */
  function EncodeData(src: seq<byte>, off: nat, len: nat): (r: Option<Coded>)
    requires CMP_CHUNK_HDR <= len && off + len <= |src| && (off == 0 || off >= MIN_PERIOD)
    ensures r.Some? ==> SmallCounts(r.value.ops)
  {
    if off == 0 then
      var rest := EncodeOps(src, len, 8, 8, CMP_CHUNK_HDR + 8, len + CHUNK_HDR);
      if rest.None? then None
      else Some(Coded([Op(Bmap(0xff, 0), 0)] + rest.value.ops, src[..8] + rest.value.lits))
    else EncodeOps(src, off + len, off, 8, CMP_CHUNK_HDR, len + CHUNK_HDR)
  }

  // ----- zbm_find_most_common_bitmaps

  function UseCount(ops: seq<Op>, b: Bmap): (n: nat)
  {
    if ops == [] then 0 else (if ops[0].bmap == b then 1 else 0) + UseCount(ops[1..], b)
  }

  datatype Top = Top(bmap: Bmap, usecnt: nat)

  /** Where a bitmap goes in the list, which is sorted by falling use count, or
      nothing if it is there already. */
  function TopSlot(tops: seq<Top>, b: Bmap, usecnt: nat, i: nat): (r: Option<nat>)
    requires i <= |tops|
    ensures r.Some? ==> i <= r.value <= |tops|
    ensures r.None? ==> exists j | i <= j < |tops| :: tops[j].bmap == b
    decreases |tops| - i
  {
    if i == |tops| then Some(i)
    else if tops[i].bmap == b then None
    else if tops[i].usecnt < usecnt then Some(i)
    else TopSlot(tops, b, usecnt, i + 1)
  }

  function InsertTop(tops: seq<Top>, b: Bmap, usecnt: nat): (r: seq<Top>)
    requires |tops| <= BITMAP_COUNT
    ensures |r| <= BITMAP_COUNT
    ensures forall t | t in r :: t in tops || t == Top(b, usecnt)
  {
    var slot := TopSlot(tops, b, usecnt, 0);
    if slot.None? || slot.value == BITMAP_COUNT then tops
    else
      var all := tops[..slot.value] + [Top(b, usecnt)] + tops[slot.value..];
      all[..Min(|all|, BITMAP_COUNT)]
  }

  function FindTops(ops: seq<Op>, k: nat): (tops: seq<Top>)
    requires k <= |ops|
    ensures |tops| <= BITMAP_COUNT
    ensures forall t | t in tops :: exists i | 0 <= i < k :: t.bmap == ops[i].bmap
  {
    if k == 0 then []
    else
      var before := FindTops(ops, k - 1);
      InsertTop(before, ops[k - 1].bmap, UseCount(ops, ops[k - 1].bmap))
  }

  /** The twelve bitmaps of the trailer: unused slots are zeroed. */
  function TopBitmaps(tops: seq<Top>): (r: seq<Bmap>)
    requires |tops| <= BITMAP_COUNT
    ensures |r| == BITMAP_COUNT
    ensures forall i | 0 <= i < |tops| :: r[i] == tops[i].bmap
  {
    seq(BITMAP_COUNT, i => if 0 <= i < |tops| then tops[i].bmap else Bmap(0, 0))
  }

  predicate IsTop(tops: seq<Top>, b: Bmap)
  {
    exists i | 0 <= i < |tops| :: tops[i].bmap == b
  }

  // ----- zbm_write_metadata_1 and zbm_write_metadata_2

  /** The period of one operation, if it changes, lowest byte first. */
  function OpMeta1(op: Op): (s: seq<byte>)
  {
    if op.bmap.periodBytecnt == 0 then []
    else if op.bmap.periodBytecnt == 1 then [ToByte(op.period % 256)]
    else [ToByte(op.period % 256), ToByte(op.period / 256 % 256)]
  }

  function Meta1(ops: seq<Op>): (s: seq<byte>)
  {
    if ops == [] then [] else OpMeta1(ops[0]) + Meta1(ops[1..])
  }

  function Meta2(ops: seq<Op>, tops: seq<Top>): (s: seq<byte>)
  {
    if ops == [] then []
    else (if IsTop(tops, ops[0].bmap) then [] else [ops[0].bmap.bitmap]) + Meta2(ops[1..], tops)
  }

  /** k bytes written one by one, each after testing the cursor for equality
      with the limit, get through exactly when the cursor never meets it. */
  predicate Fits(w: nat, k: nat, limit: nat)
  {
    !(w <= limit < w + k)
  }

  // ----- zbm_write_metadata_3

  function FirstIndex(all: seq<Bmap>, b: Bmap): (i: nat)
    requires b in all
    ensures i < |all| && all[i] == b
  {
    if all[0] == b then 0 else 1 + FirstIndex(all[1..], b)
  }

  function NumFor(tops: seq<Top>, b: Bmap): (num: byte)
    requires |tops| <= BITMAP_COUNT && b.periodBytecnt <= MAX_PERIOD_BYTECNT
    ensures num < 15
  {
    if IsTop(tops, b) then
      var i :| 0 <= i < |tops| && tops[i].bmap == b;
      assert TopBitmaps(tops)[i] == b;
      ByteOrder(FirstIndex(TopBitmaps(tops), b) + BITMAP_BASE);
      ToByte(FirstIndex(TopBitmaps(tops), b) + BITMAP_BASE)
    else
      ByteOrder(b.periodBytecnt);
      ToByte(b.periodBytecnt)
  }

  lemma ByteOrder(n: nat)
    requires n < 15
    ensures ToByte(n) < 15
  {
    ByteRoundTrip(n);
  }

  function Nums(ops: seq<Op>, tops: seq<Top>): (nums: seq<byte>)
    requires |tops| <= BITMAP_COUNT
    requires forall i | 0 <= i < |ops| :: ops[i].bmap.periodBytecnt <= MAX_PERIOD_BYTECNT
    ensures |nums| == |ops|
    ensures forall i | 0 <= i < |nums| :: nums[i] < 15
    ensures forall i | 0 <= i < |nums| :: nums[i] == NumFor(tops, ops[i].bmap)
  {
    seq(|ops|, i requires 0 <= i < |ops| => NumFor(tops, ops[i].bmap))
  }

  /** How many times the first number repeats. */
  function Run(nums: seq<byte>): (r: nat)
    requires nums != []
    ensures 1 <= r <= |nums|
    ensures forall i | 0 <= i < r :: nums[i] == nums[0]
  {
    if |nums| > 1 && nums[1] == nums[0] then 1 + Run(nums[1..]) else 1
  }

  function CountNibbles(count: nat): (ns: seq<byte>)
    ensures |ns| > 0 && forall i | 0 <= i < |ns| :: ns[i] <= 15
  {
    if count < 15 then ByteOrder(count); [ToByte(count)] else [15] + CountNibbles(count - 15)
  }

  function Same(num: byte, k: nat): (ns: seq<byte>)
    ensures |ns| == k && forall i | 0 <= i < k :: ns[i] == num
  {
    if k == 0 then [] else [num] + Same(num, k - 1)
  }

  function RunNibbles(num: byte, run: nat): (ns: seq<byte>)
    requires num < 15 && run > 0
    ensures forall i | 0 <= i < |ns| :: ns[i] <= 15
  {
    if run <= 3 then Same(num, run) else [num, 15] + CountNibbles(run - 4)
  }

  function Nibbles(nums: seq<byte>): (ns: seq<byte>)
    requires forall i | 0 <= i < |nums| :: nums[i] < 15
    ensures forall i | 0 <= i < |ns| :: ns[i] <= 15
    decreases |nums|
  {
    if nums == [] then [] else RunNibbles(nums[0], Run(nums)) + Nibbles(nums[Run(nums)..])
  }

  // ----- zbm_write_trailing_bitmaps

  function WriteTrailer(tops: seq<Bmap>, k: nat): (s: seq<byte>)
    requires |tops| == BITMAP_COUNT && k <= 120
    ensures |s| == BITMAP_BYTECNT
    ensures forall j: nat | j < 136 :: BitAt(s, j) == (j < k && TrailerBit(tops, j))
  {
    if k == 0 then
      EmptyTrailer();
      Zeros(BITMAP_BYTECNT)
    else
      var s := WriteTrailer(tops, k - 1);
      TrailerMore(s, tops, k - 1);
      WriteBit(s, k - 1, TrailerBit(tops, k - 1))
  }

  /** zbm_write_single_bit(), on a bit that is zero. */
  function WriteBit(s: seq<byte>, k: nat, val: bool): (r: seq<byte>)
    requires k / 8 < |s|
    ensures |r| == |s|
  {
    s[k / 8 := SetBit(s[k / 8], k % 8, val)]
  }

  lemma WriteBitAt(s: seq<byte>, k: nat, val: bool, j: nat)
    requires k < 8 * |s| && j < 8 * |s|
    ensures BitAt(WriteBit(s, k, val), j) <==> BitAt(s, j) || (j == k && val)
  {
    SetBitBits(s[k / 8], k % 8, val);
    hide Bit, SetBit;
  }

  lemma EmptyTrailer()
    ensures forall j: nat | j < 136 :: !BitAt(Zeros(BITMAP_BYTECNT), j)
  {
    ZeroBits();
    hide Bit;
  }

  lemma TrailerMore(s: seq<byte>, tops: seq<Bmap>, k: nat)
    requires |tops| == BITMAP_COUNT && k < 120 && |s| == BITMAP_BYTECNT
    requires forall j: nat | j < 136 :: BitAt(s, j) == (j < k && TrailerBit(tops, j))
    ensures forall j: nat | j < 136 :: BitAt(WriteBit(s, k, TrailerBit(tops, k)), j) == (j < k + 1 && TrailerBit(tops, j))
  {
    hide BitAt, TrailerBit, WriteBit;
    forall j: nat | j < 136
      ensures BitAt(WriteBit(s, k, TrailerBit(tops, k)), j) == (j < k + 1 && TrailerBit(tops, j))
    {
      WriteBitAt(s, k, TrailerBit(tops, k), j);
    }
  }

  // ----- zbm_build_compressed_chunk, zbm_compress_single_chunk

  predicate IsU24(n: nat) { n < 0x100_0000 }

  function ChunkHeader(len: nat, decmpLen: nat, off1: nat, off2: nat, off3: nat): (h: seq<byte>)
    requires IsU24(len) && IsU24(decmpLen) && IsU24(off1) && IsU24(off2) && IsU24(off3)
    ensures |h| == CMP_CHUNK_HDR
  {
    U24(len) + U24(decmpLen) + U24(off1) + U24(off2) + U24(off3)
  }

  /** The metadata areas, with the order and the room checks of the source. */
  function BuildMetadata(coded: Coded, len: nat): (r: Option<seq<byte>>)
    requires SmallCounts(coded.ops) && len <= MAX_DECMP_CHUNK_SIZE
  {
    var limit := len + CHUNK_HDR;
    var tops := FindTops(coded.ops, |coded.ops|);
    var m1 := Meta1(coded.ops);
    var m2 := Meta2(coded.ops, tops);
    var ns := Nibbles(Nums(coded.ops, tops));
    var off1 := CMP_CHUNK_HDR + |coded.lits|;
    var off2 := off1 + |m1|;
    var off3 := off2 + |m2|;
    var m3 := PackNibbles(ns);
    if !Fits(off1, |m1|, limit) || !Fits(off2, |m2|, limit) then None
    else if |ns| > 0 && off3 + (|ns| - 1) / 2 >= limit then None
    else if limit - (off3 + |m3|) < BITMAP_BYTECNT then None
    else
      var total := off3 + |m3| + BITMAP_BYTECNT;
      Some(ChunkHeader(total, len, off1, off2, off3) + coded.lits + m1 + m2 + m3 + WriteTrailer(TopBitmaps(tops), 120))
  }

  /** The compressed form of a chunk, if it is worth having. */
  function BuildCompressed(src: seq<byte>, off: nat, len: nat): (r: Option<seq<byte>>)
    requires len <= MAX_DECMP_CHUNK_SIZE && off + len <= |src|
    requires off == 0 || off >= MIN_PERIOD || len == 0
  {
    if len < CMP_CHUNK_HDR then None
    else
      var coded := EncodeData(src, off, len);
      if coded.None? then None else BuildMetadata(coded.value, len)
  }

  function StoredChunk(data: seq<byte>): (c: seq<byte>)
    requires |data| <= MAX_DECMP_CHUNK_SIZE
  {
    U24(|data| + CHUNK_HDR) + U24(|data|) + data
  }

  function ChunkLen(src: seq<byte>, off: nat): (len: nat)
    requires off <= |src|
    ensures off + len <= |src|
    ensures len == 0 <==> off == |src|
  {
    Min(|src| - off, MAX_DECMP_CHUNK_SIZE)
  }

  /** Where chunks can start: chunks before the last one are full. */
  predicate ChunkStart(src: seq<byte>, off: nat)
  {
    off <= |src| && (off == |src| || off % MAX_DECMP_CHUNK_SIZE == 0)
  }

  lemma NextStart(src: seq<byte>, off: nat)
    requires ChunkStart(src, off)
    ensures ChunkStart(src, off + ChunkLen(src, off))
  {
  }

  function EncodeChunk(src: seq<byte>, off: nat): (c: seq<byte>)
    requires ChunkStart(src, off)
  {
    var len := ChunkLen(src, off);
    var body := BuildCompressed(src, off, len);
    if body.Some? then body.value else StoredChunk(src[off..off + len])
  }

  // ----- zbm_compress

  /** All the chunks from off on, and the empty one that ends the stream. */
  function EncodeChunks(src: seq<byte>, off: nat): (s: seq<byte>)
    requires ChunkStart(src, off)
    decreases |src| - off
  {
    if off == |src| then EncodeChunk(src, off)
    else
      NextStart(src, off);
      EncodeChunk(src, off) + EncodeChunks(src, off + ChunkLen(src, off))
  }

  function Compress(src: seq<byte>): (s: seq<byte>)
  {
    MAGIC + EncodeChunks(src, 0)
  }
}
