/** The on-disk building blocks that the LZBITMAP encoder and decoder share
    (lib/libzbitmap.c): bits, nibbles, 24-bit integers, bitmaps and the
    17-byte trailer that holds the twelve most common bitmaps of a chunk. */
module ZbmFormat {
  import opened Prelude

  const MAX_DECMP_CHUNK_SIZE := 0x8000
  const BITMAP_COUNT := 12
  const BITMAP_BASE := 3
  const BITMAP_BYTECNT := 17
  const MAX_PERIOD_BYTECNT := 2
  const CHUNK_HDR := 6        // both lengths
  const CMP_CHUNK_HDR := 15   // both lengths and the three metadata offsets
  const MAGIC: seq<byte> := [0x5A, 0x42, 0x4D, 0x09]

  datatype Error = Inval | Range | Overflow

  datatype Result<+T> = Ok(value: T) | Err(error: Error)

  /** A bitmap and the number of bytes to read to get the new period. */
  datatype Bmap = Bmap(bitmap: byte, periodBytecnt: nat)

  predicate Bit(b: byte, i: nat)
    requires i < 8
  {
    b & (1 << i) != 0
  }

  function SetBit(b: byte, i: nat, val: bool): byte
    requires i < 8
  {
    b | ((if val then 1 else 0) << i)
  }

  lemma SetBitBits(b: byte, i: nat, val: bool)
    requires i < 8
    ensures forall j: nat | j < 8 :: Bit(SetBit(b, i, val), j) <==> Bit(b, j) || (j == i && val)
  {
  }

  lemma ZeroBits()
    ensures forall j: nat | j < 8 :: !Bit(0, j)
  {
  }

  /** Two bytes with the same bits are equal. */
  lemma ByteExtensional(a: byte, b: byte)
    requires forall j: nat | j < 8 :: Bit(a, j) == Bit(b, j)
    ensures a == b
  {
    assert Bit(a, 0) == Bit(b, 0) && Bit(a, 1) == Bit(b, 1) && Bit(a, 2) == Bit(b, 2) && Bit(a, 3) == Bit(b, 3);
    assert Bit(a, 4) == Bit(b, 4) && Bit(a, 5) == Bit(b, 5) && Bit(a, 6) == Bit(b, 6) && Bit(a, 7) == Bit(b, 7);
  }

  // ----- 24-bit integers

  function U24(n: nat): (s: seq<byte>)
    requires n < 0x100_0000
    ensures |s| == 3
  {
    [ToByte(n % 256), ToByte(n / 256 % 256), ToByte(n / 65536)]
  }

  function ReadU24(s: seq<byte>, i: nat): (n: nat)
    requires i + 3 <= |s|
    ensures n < 0x100_0000
  {
    ByteVal(s[i]) + 256 * ByteVal(s[i + 1]) + 65536 * ByteVal(s[i + 2])
  }

  lemma Digits(n: nat)
    requires n < 0x100_0000
    ensures n == n % 256 + 256 * (n / 256 % 256) + 65536 * (n / 65536)
  {
    var q := n / 256;
    assert n == 256 * q + n % 256;
    assert q == 256 * (q / 256) + q % 256;
    assert q / 256 == n / 65536;
  }

  /** zbm_u24_to_u32 undoes zbm_u32_to_u24, wherever the integer is stored. */
  lemma U24RoundTrip(s: seq<byte>, i: nat, n: nat)
    requires n < 0x100_0000 && i + 3 <= |s| && s[i..i + 3] == U24(n)
    ensures ReadU24(s, i) == n
  {
    ByteRoundTrip(n % 256);
    ByteRoundTrip(n / 256 % 256);
    ByteRoundTrip(n / 65536);
    Digits(n);
    assert s[i] == s[i..i + 3][0] && s[i + 1] == s[i..i + 3][1] && s[i + 2] == s[i..i + 3][2];
  }

  /** Both have the least significant byte first. */
  lemma U24LittleEndian(s: seq<byte>, i: nat, n: nat)
    requires n < 0x100_0000 && i + 3 <= |s|
    ensures LittleEndianValue(U24(n)) == n && ReadU24(s, i) == LittleEndianValue(s[i..i + 3])
  {
    hide ByteVal;
    ThreeBytes(s[i..i + 3]);
    ThreeBytes(U24(n));
    U24RoundTrip(U24(n), 0, n);
  }

  lemma ThreeBytes(s: seq<byte>)
    requires |s| == 3
    ensures LittleEndianValue(s) == ByteVal(s[0]) + 256 * ByteVal(s[1]) + 65536 * ByteVal(s[2])
  {
    assert s == [s[0], s[1], s[2]];
    LittleEndianBytes(s[0], s[1], s[2]);
  }

  // ----- Nibbles: the low half of each byte comes first

  function NibbleAt(s: seq<byte>, p: nat): (n: byte)
    requires p / 2 < |s|
    ensures n <= 15
  {
    if p % 2 == 0 then s[p / 2] & 0xf else (s[p / 2] >> 4) & 0xf
  }

  /** Appending one nibble at nibble offset p of an area that already holds p
      nibbles: a fresh byte for the low half, OR into the byte for the high. */
  function PutNibble(s: seq<byte>, p: nat, val: byte): (t: seq<byte>)
    requires |s| == (p + 1) / 2
    ensures |t| == (p + 2) / 2
  {
    if p % 2 == 0 then s + [val] else s[p / 2 := s[p / 2] | (val << 4)]
  }

  predicate HoldsNibbles(s: seq<byte>, ns: seq<byte>)
  {
    && |s| == (|ns| + 1) / 2
    && (forall j: nat | j < |ns| :: ns[j] <= 15 && NibbleAt(s, j) == ns[j])
    && (|ns| % 2 == 1 ==> s[|ns| / 2] <= 15)
  }

  lemma PutNibbleHolds(s: seq<byte>, ns: seq<byte>, val: byte)
    requires HoldsNibbles(s, ns) && val <= 15
    ensures HoldsNibbles(PutNibble(s, |ns|, val), ns + [val])
  {
    var t := PutNibble(s, |ns|, val);
    forall j: nat | j < |ns| + 1
      ensures (ns + [val])[j] <= 15 && NibbleAt(t, j) == (ns + [val])[j]
    {
      if j < |ns| {
        assert NibbleAt(s, j) == ns[j];
      }
    }
  }

  function PackNibbles(ns: seq<byte>): (s: seq<byte>)
    ensures |s| == (|ns| + 1) / 2
  {
    if ns == [] then [] else PutNibble(PackNibbles(ns[..|ns| - 1]), |ns| - 1, ns[|ns| - 1])
  }

  lemma {:induction false} PackNibblesHolds(ns: seq<byte>)
    requires forall j: nat | j < |ns| :: ns[j] <= 15
    ensures HoldsNibbles(PackNibbles(ns), ns)
  {
    if ns != [] {
      var front := ns[..|ns| - 1];
      PackNibblesHolds(front);
      PutNibbleHolds(PackNibbles(front), front, ns[|ns| - 1]);
      assert front + [ns[|ns| - 1]] == ns;
    }
  }

  // ----- The trailer: twelve bitmaps of 8 + 2 bits, packed from the lowest bit up

  predicate BitAt(s: seq<byte>, k: nat)
    requires k / 8 < |s|
  {
    Bit(s[k / 8], k % 8)
  }

  predicate CntBit(cnt: nat, i: nat)
  {
    if i == 0 then cnt % 2 == 1 else cnt / 2 % 2 == 1
  }

  /** Bit number k of the packed trailer. */
  predicate TrailerBit(tops: seq<Bmap>, k: nat)
    requires k / 10 < |tops|
  {
    if k % 10 < 8 then Bit(tops[k / 10].bitmap, k % 10) else CntBit(tops[k / 10].periodBytecnt, k % 10 - 8)
  }

  predicate HoldsTrailer(s: seq<byte>, tops: seq<Bmap>)
  {
    && |s| == BITMAP_BYTECNT
    && |tops| == BITMAP_COUNT
    && forall k: nat | k < 120 :: BitAt(s, k) == TrailerBit(tops, k)
  }
}
