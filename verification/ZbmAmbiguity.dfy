/** The round trip does fail: 36 zero bytes are enough. Their compressed form
    is 42 bytes long, which the decoder takes for 36 stored bytes. */
module ZbmAmbiguity {
  import opened Prelude
  import opened ZbmFormat
  import D = ZbmDecode
  import E = ZbmEncode
  import R = ZbmRoundTrip

  const ZERO_OP := E.Op(Bmap(0, 0), 8)
  const FIRST_OP := E.Op(Bmap(0xff, 0), 0)

  lemma NoDiff(a: seq<byte>)
    ensures E.ByteDiff(a, a) == 0
  {
  }

  /** The place one period back matches, so no other one is looked at. */
  lemma ZeroPlace(size: nat, pos: nat, n: nat)
    requires 0 < n <= 8 <= pos && pos + n <= size
    ensures E.GoodPattern(Zeros(size), pos, n, 8) == pos - 8
  {
    hide E.ScanNear, E.ScanFar, E.ByteDiff;
    var src := Zeros(size);
    assert src[pos - 8..pos] == Zeros(8) == E.Needle(src, pos, n);
    NoDiff(Zeros(8));
  }

  lemma ZeroBitmap(size: nat, pos: nat, n: nat)
    requires 0 < n <= 8 <= pos && pos + n <= size
    ensures E.CalcBitmap(Zeros(size), pos - 8, pos, n) == 0
  {
    hide Bit;
    ZeroBits();
    ByteExtensional(E.CalcBitmap(Zeros(size), pos - 8, pos, n), 0);
  }

  lemma ZeroPattern(size: nat, pos: nat, n: nat)
    requires 0 < n <= 8 <= pos && pos + n <= size
    ensures E.NewOp(Zeros(size), pos, n, 8) == ZERO_OP
  {
    hide E.GoodPattern, E.CalcBitmap, Bit;
    ZeroPlace(size, pos, n);
    ZeroBitmap(size, pos, n);
  }

  lemma {:induction false} NothingNew(src: seq<byte>, pos: nat, n: nat, i: nat, w: nat, limit: nat)
    requires i <= n <= 8 && pos + n <= |src| && w != limit
    ensures E.WriteNew(src, pos, n, 0, i, w, limit) == Some([])
    decreases n - i
  {
    if i < n {
      ZeroBits();
      NothingNew(src, pos, n, i + 1, w, limit);
    }
  }

  ghost function ZeroList(k: nat): (ops: seq<E.Op>)
    ensures |ops| == k && forall i | 0 <= i < k :: ops[i] == ZERO_OP
  {
    if k == 0 then [] else [ZERO_OP] + ZeroList(k - 1)
  }

  lemma {:induction false} ZeroListAreas(k: nat, tops: seq<E.Top>)
    requires E.IsTop(tops, Bmap(0, 0))
    ensures E.UseCount(ZeroList(k), Bmap(0, 0)) == k && E.UseCount(ZeroList(k), Bmap(0xff, 0)) == 0
    ensures E.Meta1(ZeroList(k)) == [] && E.Meta2(ZeroList(k), tops) == []
  {
    if k > 0 {
      ZeroListAreas(k - 1, tops);
      assert ZeroList(k)[1..] == ZeroList(k - 1);
    }
  }

  lemma {:induction false} ZeroOps(size: nat, pos: nat, w: nat, limit: nat)
    requires 8 <= pos <= size && w != limit
    ensures E.EncodeOps(Zeros(size), size, pos, 8, w, limit)
            == Some(E.Coded(ZeroList((size - pos + 7) / 8), []))
    decreases size - pos
  {
    hide E.NewOp, E.WriteNew;
    if pos < size {
      var n := Min(8, size - pos);
      ZeroPattern(size, pos, n);
      NothingNew(Zeros(size), pos, n, 0, w, limit);
      ZeroOps(size, pos + n, w, limit);
      var rest := E.EncodeOps(Zeros(size), size, pos + n, 8, w, limit).value;
      assert rest.lits == [] && [ZERO_OP] + rest.ops == ZeroList((size - pos + 7) / 8);
      var all := E.EncodeOps(Zeros(size), size, pos, 8, w, limit);
      assert all.Some? && all.value.ops == [ZERO_OP] + rest.ops;
      assert all.value.lits == [];
    }
  }

  const OPS := [FIRST_OP, ZERO_OP, ZERO_OP, ZERO_OP, ZERO_OP]

  lemma WitnessData()
    ensures E.EncodeData(Zeros(36), 0, 36) == Some(E.Coded(OPS, Zeros(8)))
  {
    hide E.EncodeOps;
    ZeroOps(36, 8, 23, 42);
    assert OPS == [FIRST_OP] + ZeroList(4);
    assert E.EncodeOps(Zeros(36), 36, 8, 8, 23, 42) == Some(E.Coded(ZeroList(4), []));
    assert Zeros(8) + [] == Zeros(8);
    assert Zeros(36)[..8] == Zeros(8);
  }

  const TOPS := [E.Top(Bmap(0, 0), 4), E.Top(Bmap(0xff, 0), 1)]

  lemma WitnessAreas()
    ensures E.UseCount(OPS, Bmap(0, 0)) == 4 && E.UseCount(OPS, Bmap(0xff, 0)) == 1
    ensures E.Meta1(OPS) == [] && E.Meta2(OPS, TOPS) == []
  {
    assert TOPS[0].bmap == Bmap(0, 0) && TOPS[1].bmap == Bmap(0xff, 0);
    ZeroListAreas(4, TOPS);
    assert OPS[1..] == ZeroList(4) && OPS[0] == FIRST_OP;
  }

  lemma FirstInsert()
    ensures E.InsertTop([], Bmap(0xff, 0), 1) == [E.Top(Bmap(0xff, 0), 1)]
  {
  }

  lemma SecondInsert()
    ensures E.InsertTop([E.Top(Bmap(0xff, 0), 1)], Bmap(0, 0), 4) == TOPS
  {
  }

  lemma LaterInsert()
    ensures E.InsertTop(TOPS, Bmap(0, 0), 4) == TOPS
  {
  }

  lemma WitnessTops()
    ensures E.FindTops(OPS, 5) == TOPS
  {
    hide E.UseCount, E.InsertTop;
    WitnessAreas();
    FirstInsert();
    SecondInsert();
    LaterInsert();
    assert E.FindTops(OPS, 0) == [];
    assert E.FindTops(OPS, 1) == [E.Top(Bmap(0xff, 0), 1)];
    assert E.FindTops(OPS, 2) == TOPS;
    assert E.FindTops(OPS, 3) == TOPS;
    assert E.FindTops(OPS, 4) == TOPS;
  }

  lemma RunOfFour(x: byte, nums: seq<byte>)
    requires nums == [x, x, x, x] && x < 15
    ensures E.Run(nums) == 4 && |E.Nibbles(nums)| == 3
  {
    assert E.Run([x]) == 1;
    assert [x, x][1..] == [x] && E.Run([x, x]) == 2;
    assert [x, x, x][1..] == [x, x] && E.Run([x, x, x]) == 3;
    assert [x, x, x, x][1..] == [x, x, x] && E.Run(nums) == 4;
    assert nums[4..] == [];
    assert |E.CountNibbles(0)| == 1;
  }

  lemma WitnessNibbles(nums: seq<byte>)
    requires |nums| == 5 && R.SmallNums(nums)
    requires nums[0] != nums[1] && nums[1] == nums[2] == nums[3] == nums[4]
    ensures |E.Nibbles(nums)| == 4
  {
    assert nums[1..] == [nums[1], nums[1], nums[1], nums[1]];
    RunOfFour(nums[1], nums[1..]);
    assert E.Run(nums) == 1;
  }

  lemma DifferentNums()
    ensures E.NumFor(TOPS, Bmap(0, 0)) != E.NumFor(TOPS, Bmap(0xff, 0))
  {
    assert TOPS[0].bmap == Bmap(0, 0) && TOPS[1].bmap == Bmap(0xff, 0);
    R.TopNumber(TOPS, Bmap(0, 0));
    R.TopNumber(TOPS, Bmap(0xff, 0));
  }

  lemma WitnessNums()
    ensures |E.Nibbles(E.Nums(OPS, TOPS))| == 4
  {
    hide E.NumFor, E.Nibbles;
    DifferentNums();
    WitnessNibbles(E.Nums(OPS, TOPS));
  }

  /** A chunk with no periods and no listed bitmaps, and with two bytes of nibbles. */
  lemma ShortMetadata(coded: E.Coded, len: nat, tops: seq<E.Top>, ns: seq<byte>, off: nat)
    requires E.SmallCounts(coded.ops) && len <= MAX_DECMP_CHUNK_SIZE && tops == E.FindTops(coded.ops, |coded.ops|)
    requires E.Meta1(coded.ops) == [] && E.Meta2(coded.ops, tops) == [] && ns == E.Nibbles(E.Nums(coded.ops, tops)) && |ns| == 4
    requires off == CMP_CHUNK_HDR + |coded.lits| && off + 2 + BITMAP_BYTECNT <= len + CHUNK_HDR
    ensures E.BuildMetadata(coded, len)
            == Some(E.ChunkHeader(off + 2 + BITMAP_BYTECNT, len, off, off, off) + coded.lits + [] + [] + PackNibbles(ns)
                    + E.WriteTrailer(E.TopBitmaps(tops), 120))
  {
    hide E.FindTops, E.Meta1, E.Meta2, E.Nums, PackNibbles, E.WriteTrailer, E.ChunkHeader, E.Nibbles, E.TopBitmaps, E.SmallCounts;
  }

  lemma ShortLength(src: seq<byte>, len: nat, coded: E.Coded, tops: seq<E.Top>, ns: seq<byte>, off: nat)
    requires CMP_CHUNK_HDR <= len <= MAX_DECMP_CHUNK_SIZE && len <= |src| && E.EncodeData(src, 0, len) == Some(coded)
    requires E.SmallCounts(coded.ops) && tops == E.FindTops(coded.ops, |coded.ops|)
    requires E.Meta1(coded.ops) == [] && E.Meta2(coded.ops, tops) == [] && ns == E.Nibbles(E.Nums(coded.ops, tops)) && |ns| == 4
    requires off == CMP_CHUNK_HDR + |coded.lits| && off + 2 + BITMAP_BYTECNT <= len + CHUNK_HDR
    ensures var r := E.BuildCompressed(src, 0, len);
            r.Some? && |r.value| == off + 2 + BITMAP_BYTECNT && ReadU24(r.value, 6) == off
  {
    hide E.EncodeData, E.FindTops, E.Meta1, E.Meta2, E.Nums, PackNibbles, E.WriteTrailer, E.ChunkHeader, E.Nibbles, E.TopBitmaps, E.BuildMetadata, E.SmallCounts, ReadU24;
    ShortMetadata(coded, len, tops, ns, off);
    var c := E.BuildMetadata(coded, len).value;
    var h := E.ChunkHeader(off + 2 + BITMAP_BYTECNT, len, off, off, off);
    R.Areas(h, coded.lits, [], [], PackNibbles(ns), E.WriteTrailer(E.TopBitmaps(tops), 120), c);
    R.HeaderReads(c, off + 2 + BITMAP_BYTECNT, len, off, off, off);
  }

  /** The compressed form has the length of a stored chunk. */
  lemma WitnessLength()
    ensures var r := E.BuildCompressed(Zeros(36), 0, 36);
            r.Some? && |r.value| == 42 && ReadU24(r.value, 6) == 23
  {
    hide E.EncodeData, E.FindTops, E.Meta1, E.Meta2, E.Nums, E.Nibbles, E.BuildCompressed, ReadU24, Zeros;
    WitnessData();
    WitnessTops();
    WitnessAreas();
    WitnessNums();
    ShortLength(Zeros(36), 36, E.Coded(OPS, Zeros(8)), TOPS, E.Nibbles(E.Nums(OPS, TOPS)), 23);
  }

  /** Compressing 36 zero bytes and decompressing the result does not give them
      back, however large the destination buffer. */
  lemma ZerosDoNotRoundTrip(destSize: nat)
    requires destSize >= 36
    ensures D.Decompress(E.Compress(Zeros(36)), destSize) != Ok(Zeros(36))
  {
    hide E.BuildCompressed, D.Decompress, E.Compress, ReadU24;
    var src := Zeros(36);
    WitnessLength();
    assert E.ChunkStart(src, 0) && E.ChunkLen(src, 0) == 36;
    assert R.Ambiguous(src, 0);
    var c := E.EncodeChunk(src, 0);
    NonZero(c);
    assert c[CHUNK_HDR..] != src[0..36];
    assert !R.Faithful(src, 0);
    R.RoundTrip(src, destSize);
  }

  lemma NonZero(c: seq<byte>)
    requires |c| == 42 && ReadU24(c, 6) == 23
    ensures c[CHUNK_HDR..] != Zeros(36)
  {
    var t := c[CHUNK_HDR..];
    assert t[0] == c[6] && t[1] == c[7] && t[2] == c[8];
    assert c[6] != 0;
    assert Zeros(36)[0] == 0 && Zeros(36)[1] == 0 && Zeros(36)[2] == 0;
  }
}
