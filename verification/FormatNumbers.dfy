/** The numbers of the on-disk formats that the modules use, against the headers
    (include/apfs/raw.h, lib/libzbitmap.c:10-47, include/apfs/zlib_inflate/inftrees.h),
    and how they fit together. */
module FormatNumbers {
  import opened Prelude
  import F = ZbmFormat
  import K = BtreeKeys
  import L = ExtentLookup
  import X = Extents
  import N = NodeArea
  import R = IpRing
  import C = CheckpointRing
  import T = InfTables
  import H = Canonical
  import W = Fletcher
  import S = SpacemanLayout

  /** A bitmap number has four bits: three kinds of listed bitmaps, the dictionary, and
      one that is not valid. A chunk header has 24-bit fields. */
  lemma CodecNumbers()
    ensures LittleEndianValue(F.MAGIC) == 0x094D425A && |F.MAGIC| == 4
    ensures F.BITMAP_BASE == F.MAX_PERIOD_BYTECNT + 1 == 3 && F.BITMAP_BASE + F.BITMAP_COUNT + 1 == 16
    ensures F.CHUNK_HDR == 2 * 3 && F.CMP_CHUNK_HDR == 5 * 3 && F.MAX_DECMP_CHUNK_SIZE == 0x8000 && F.BITMAP_BYTECNT == 17
  {
    var m := F.MAGIC;
    hide ByteVal, LittleEndianValue;
    LittleEndianBytes(m[1], m[2], m[3]);
    LittleEndianStep(m[0], [m[1], m[2], m[3]]);
    assert m == [m[0]] + [m[1], m[2], m[3]];
    MagicBytes();
  }

  lemma MagicBytes()
    ensures ByteVal(F.MAGIC[0]) == 0x5A && ByteVal(F.MAGIC[1]) == 0x42 && ByteVal(F.MAGIC[2]) == 0x4D && ByteVal(F.MAGIC[3]) == 0x09
  {
  }

  lemma TreeNumbers()
    ensures forall kind: nat :: K.HasName(kind) <==> kind in {4, 9, 11}
    ensures L.EXTENT == 2 && L.VALUE_SIZE == 20 && X.NEW == 1 && X.UPDATE == 2 && X.U32 == 0xFFFF_FFFF + 1
    ensures N.INVALID == 256 * 256 - 1
  {
  }

  lemma ContainerNumbers()
    ensures R.INVALID == R.COUNT_MAX + 1 == 256 * 256 - 1 && C.SPACEMAN == 5 && C.MAX_MAPS == 101
  {
  }

  /** Code lengths have up to four bits; there are 19 of them, 288 literals and lengths,
      and 32 distances. */
  lemma InflateNumbers()
    ensures H.MAXBITS == 16 - 1 && T.MaxSymbols(T.CODES) == 19 && T.MaxSymbols(T.LENS) == 288 && T.MaxSymbols(T.DISTS) == 32
    ensures T.ENOUGH == 2048 && T.MAXD == 592 && T.INVALID_OP == 64 && T.END_OF_BLOCK_OP == 96
  {
  }

  /** Numbers of 64 bits wrap around. */
  lemma Wraps(x: nat, a: nat, b: nat)
    requires a < U64 && b < U64
    ensures U64 == 0xFFFF_FFFF_FFFF_FFFF + 1
    ensures W.Wrapped(x) <= 0xFFFF_FFFF_FFFF_FFFF && (x - W.Wrapped(x)) % 0x1_0000_0000_0000_0000 == 0
    ensures 0 <= S.Minus(a, b) <= 0xFFFF_FFFF_FFFF_FFFF && (S.Minus(a, b) + b - a) % 0x1_0000_0000_0000_0000 == 0
  {
  }
}
