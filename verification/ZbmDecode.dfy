/** The LZBITMAP decoder (lib/libzbitmap.c:81-436): what it computes, as
    functions. */
module ZbmDecode {
  import opened Prelude
  import opened ZbmFormat

  /** Everything that changes while one chunk is read. Offsets are relative to
      the start of the chunk; `nibble` counts half-bytes. */
  datatype State = State(
    out: seq<byte>,    // all the output so far, including previous chunks
    written: nat,      // bytes written for the current chunk
    period: nat,
    data: nat,
    meta1: nat,
    meta2: nat,
    nibble: nat)

  // ----- zbm_apply_bitmap

  function ReadPeriod(c: seq<byte>, s: State, cnt: nat): (r: Result<State>)
    requires cnt <= MAX_PERIOD_BYTECNT
    ensures r.Err? ==> r.error.Inval?
  {
    if cnt == 0 then Ok(s)
    else if s.meta1 + cnt > |c| then Err(Inval)
    else if cnt == 1 then Ok(s.(period := ByteVal(c[s.meta1]), meta1 := s.meta1 + 1))
    else Ok(s.(period := ByteVal(c[s.meta1]) + 256 * ByteVal(c[s.meta1 + 1]), meta1 := s.meta1 + 2))
  }

  datatype Copied = Copied(out: seq<byte>, data: nat)

  /** Bytes i to n of one bitmap: a set bit takes a literal, a clear one copies
      from one period back. */
  function ApplyBits(c: seq<byte>, s: Copied, period: nat, bitmap: byte, i: nat, n: nat): (r: Result<Copied>)
    requires i <= n <= 8 && period > 0
    ensures r.Err? ==> r.error.Inval?
    ensures r.Ok? ==> s.out <= r.value.out && |r.value.out| == |s.out| + n - i
    decreases n - i
  {
    if i == n then Ok(s)
    else if Bit(bitmap, i) then
      if s.data >= |c| then Err(Inval)
      else ApplyBits(c, Copied(s.out + [c[s.data]], s.data + 1), period, bitmap, i + 1, n)
    else if |s.out| < period then Err(Inval)
    else ApplyBits(c, Copied(s.out + [s.out[|s.out| - period]], s.data), period, bitmap, i + 1, n)
  }

  lemma ApplyLiteral(c: seq<byte>, out: seq<byte>, data: nat, period: nat, bitmap: byte, i: nat, n: nat)
    requires i < n <= 8 && period > 0 && Bit(bitmap, i) && data < |c|
    ensures ApplyBits(c, Copied(out, data), period, bitmap, i, n)
            == ApplyBits(c, Copied(out + [c[data]], data + 1), period, bitmap, i + 1, n)
  {
  }

  lemma ApplyCopy(c: seq<byte>, out: seq<byte>, data: nat, period: nat, bitmap: byte, i: nat, n: nat)
    requires i < n <= 8 && 0 < period <= |out| && !Bit(bitmap, i)
    ensures ApplyBits(c, Copied(out, data), period, bitmap, i, n)
            == ApplyBits(c, Copied(out + [out[|out| - period]], data), period, bitmap, i + 1, n)
  {
  }

  lemma ApplyFails(c: seq<byte>, out: seq<byte>, data: nat, period: nat, bitmap: byte, i: nat, n: nat)
    requires i < n <= 8 && period > 0
    requires if Bit(bitmap, i) then data >= |c| else |out| < period
    ensures ApplyBits(c, Copied(out, data), period, bitmap, i, n) == Err(Inval)
  {
  }

  lemma ApplyNothing(c: seq<byte>, out: seq<byte>, data: nat, period: nat, bitmap: byte, n: nat)
    requires n <= 8 && period > 0
    ensures ApplyBits(c, Copied(out, data), period, bitmap, n, n) == Ok(Copied(out, data))
  {
  }

  /** A bitmap covers eight bytes, or those that are left in the chunk. */
  function ApplyBitmap(c: seq<byte>, s: State, b: Bmap, decmpLen: nat): (r: Result<State>)
    requires b.periodBytecnt <= MAX_PERIOD_BYTECNT && s.written <= decmpLen
    ensures r.Err? ==> r.error.Inval?
    ensures r.Ok? ==> s.out <= r.value.out && r.value.written - s.written == |r.value.out| - |s.out|
    ensures r.Ok? ==> r.value.written == Min(s.written + 8, decmpLen)
  {
    var t := ReadPeriod(c, s, b.periodBytecnt);
    if t.Err? then t
    else if t.value.period == 0 then Err(Inval)
    else
      var n := Min(8, decmpLen - s.written);
      var u := ApplyBits(c, Copied(s.out, s.data), t.value.period, b.bitmap, 0, n);
      if u.Err? then Err(u.error)
      else Ok(t.value.(out := u.value.out, data := u.value.data, written := s.written + n))
  }

  // ----- zbm_apply_bitmap_number

  predicate ValidTops(tops: seq<Bmap>)
  {
    |tops| == BITMAP_COUNT && forall i | 0 <= i < BITMAP_COUNT :: tops[i].periodBytecnt <= MAX_PERIOD_BYTECNT
  }

  function ApplyNumber(c: seq<byte>, tops: seq<Bmap>, s: State, num: byte, decmpLen: nat): (r: Result<State>)
    requires ValidTops(tops) && num <= 15 && s.written <= decmpLen
    ensures r.Err? ==> r.error.Inval?
    ensures r.Ok? ==> s.out <= r.value.out && r.value.written - s.written == |r.value.out| - |s.out|
    ensures r.Ok? ==> r.value.written == Min(s.written + 8, decmpLen)
  {
    if num == 15 then Err(Inval)
    else if ByteVal(num) > MAX_PERIOD_BYTECNT then
      NumRange(num);
      ApplyBitmap(c, s, tops[ByteVal(num) - BITMAP_BASE], decmpLen)
    else if s.meta2 >= |c| then Err(Inval)
    else ApplyBitmap(c, s.(meta2 := s.meta2 + 1), Bmap(c[s.meta2], ByteVal(num)), decmpLen)
  }

  lemma NumRange(num: byte)
    requires num < 15
    ensures ByteVal(num) < 15
  {
  }

  function ApplyRepeated(c: seq<byte>, tops: seq<Bmap>, s: State, num: byte, repeat: nat, decmpLen: nat): (r: Result<State>)
    requires ValidTops(tops) && num <= 15 && s.written <= decmpLen
    ensures r.Err? ==> r.error.Inval?
    ensures r.Ok? ==> s.out <= r.value.out && r.value.written - s.written == |r.value.out| - |s.out|
    ensures r.Ok? ==> r.value.written == Min(s.written + 8 * repeat, decmpLen)
    decreases repeat
  {
    if repeat == 0 then Ok(s)
    else
      var t := ApplyNumber(c, tops, s, num, decmpLen);
      if t.Err? then t else ApplyRepeated(c, tops, t.value, num, repeat - 1, decmpLen)
  }

  // ----- zbm_read_nibble, zbm_read_repetition_count

  /** The rest of a repetition count: nibbles are added up to and including the
      first one that is not 0xf. A sum that leaves sixteen bits is an error. */
  function ReadCount(c: seq<byte>, p: nat, total: nat): (r: Result<(nat, nat)>)
    requires total < 0x1_0000
    ensures r.Err? ==> r.error.Inval?
    ensures r.Ok? ==> r.value.0 > p && total <= r.value.1 < 0x1_0000
    decreases 2 * |c| - p
  {
    if p / 2 >= |c| then Err(Inval)
    else
      var n := ByteVal(NibbleAt(c, p));
      var sum := (total + n) % 0x1_0000;
      if sum < n then Err(Inval)
      else
        WrapCheck(total, n);
        if NibbleAt(c, p) == 15 then ReadCount(c, p + 1, sum) else Ok((p + 1, sum))
  }

  /** The 16-bit overflow test of the source catches every wrap-around. */
  lemma WrapCheck(total: nat, n: nat)
    requires total < 0x1_0000 && n < 256
    ensures (total + n) % 0x1_0000 < n <==> total + n >= 0x1_0000
  {
  }

  /** The new nibble position and how often to apply the current bitmap. */
  function ReadRepetition(c: seq<byte>, p: nat, left: nat): (r: Result<(nat, nat)>)
    ensures r.Err? ==> r.error.Inval?
    ensures r.Ok? ==> r.value.1 > 0 && r.value.0 >= p
  {
    if left <= 8 then Ok((p, 1))
    else if p / 2 >= |c| then Err(Inval)
    else if NibbleAt(c, p) != 15 then Ok((p, 1))
    else ReadCount(c, p + 1, 4)
  }

  // ----- zbm_decompress_single_bitmap and the loop around it

  function DecodeSingle(c: seq<byte>, tops: seq<Bmap>, s: State, decmpLen: nat): (r: Result<State>)
    requires ValidTops(tops) && s.written < decmpLen
    ensures r.Err? ==> r.error.Inval?
    ensures r.Ok? ==> s.out <= r.value.out && r.value.written - s.written == |r.value.out| - |s.out|
    ensures r.Ok? ==> s.written < r.value.written <= decmpLen
  {
    if s.nibble / 2 >= |c| then Err(Inval)
    else
      var num := NibbleAt(c, s.nibble);
      var rep := ReadRepetition(c, s.nibble + 1, decmpLen - s.written);
      if rep.Err? then Err(rep.error)
      else ApplyRepeated(c, tops, s.(nibble := rep.value.0), num, rep.value.1, decmpLen)
  }

  function DecodeAll(c: seq<byte>, tops: seq<Bmap>, s: State, decmpLen: nat): (r: Result<State>)
    requires ValidTops(tops) && s.written <= decmpLen
    ensures r.Err? ==> r.error.Inval?
    ensures r.Ok? ==> s.out <= r.value.out && r.value.written - s.written == |r.value.out| - |s.out|
    ensures r.Ok? ==> r.value.written == decmpLen
    decreases decmpLen - s.written
  {
    if s.written == decmpLen then Ok(s)
    else
      var t := DecodeSingle(c, tops, s, decmpLen);
      if t.Err? then t else DecodeAll(c, tops, t.value, decmpLen)
  }

  // ----- zbm_read_bitmaps

  /** Eight bits, each ORed into place. */
  function GatherBits(bits: seq<bool>, i: nat, acc: byte): (b: byte)
    requires |bits| == 8 && i <= 8
    requires forall j: nat | j < 8 :: Bit(acc, j) == (j < i && bits[j])
    ensures forall j: nat | j < 8 :: Bit(b, j) == bits[j]
    decreases 8 - i
  {
    if i == 8 then acc
    else
      SetBitBits(acc, i, bits[i]);
      GatherBits(bits, i + 1, SetBit(acc, i, bits[i]))
  }

  function BitWindow(s: seq<byte>, k: nat): (bits: seq<bool>)
    requires (k + 7) / 8 < |s|
    ensures |bits| == 8
  {
    seq(8, j requires 0 <= j < 8 => BitAt(s, k + j))
  }

  function ReadByteBits(s: seq<byte>, k: nat): (b: byte)
    requires (k + 7) / 8 < |s|
  {
    ZeroBits();
    GatherBits(BitWindow(s, k), 0, 0)
  }

  lemma ReadByteBitsAt(s: seq<byte>, k: nat, j: nat)
    requires (k + 7) / 8 < |s| && j < 8
    ensures Bit(ReadByteBits(s, k), j) == BitAt(s, k + j)
  {
    hide Bit, GatherBits, BitAt;
    ZeroBits();
    assert BitWindow(s, k)[j] == BitAt(s, k + j);
  }

  function ReadBmap(trailer: seq<byte>, i: nat): (b: Bmap)
    requires |trailer| == BITMAP_BYTECNT && i < BITMAP_COUNT
  {
    Bmap(ReadByteBits(trailer, 10 * i),
         (if BitAt(trailer, 10 * i + 8) then 1 else 0) + (if BitAt(trailer, 10 * i + 9) then 2 else 0))
  }

  function ReadBmaps(trailer: seq<byte>): (tops: seq<Bmap>)
    requires |trailer| == BITMAP_BYTECNT
    ensures |tops| == BITMAP_COUNT
  {
    seq(BITMAP_COUNT, i requires 0 <= i < BITMAP_COUNT => ReadBmap(trailer, i))
  }

  /** A trailer is refused if and only if some entry has both bits of its byte count
      set; otherwise each entry has its bitmap in eight bits, from the lowest one up, and
      then its byte count in two. */
  lemma TrailerIs(trailer: seq<byte>)
    requires |trailer| == BITMAP_BYTECNT
    ensures ValidTops(ReadBmaps(trailer)) <==> forall i: nat | i < BITMAP_COUNT :: !BothBits(trailer, i)
    ensures forall i: nat, j: nat | i < BITMAP_COUNT && j < 8 :: Bit(ReadBmaps(trailer)[i].bitmap, j) == BitAt(trailer, 10 * i + j)
    ensures forall i: nat | i < BITMAP_COUNT :: ReadBmaps(trailer)[i].periodBytecnt % 2 == 1 <==> BitAt(trailer, 10 * i + 8)
    ensures forall i: nat | i < BITMAP_COUNT :: ReadBmaps(trailer)[i].periodBytecnt / 2 == 1 <==> BitAt(trailer, 10 * i + 9)
  {
    hide Bit, BitAt, GatherBits, ReadByteBits;
    var tops := ReadBmaps(trailer);
    forall i: nat, j: nat | i < BITMAP_COUNT && j < 8
      ensures Bit(tops[i].bitmap, j) == BitAt(trailer, 10 * i + j)
    {
      ReadByteBitsAt(trailer, 10 * i, j);
    }
    forall i: nat | i < BITMAP_COUNT
      ensures tops[i].periodBytecnt > MAX_PERIOD_BYTECNT <==> BothBits(trailer, i)
    {
    }
  }

  predicate BothBits(trailer: seq<byte>, i: nat)
    requires |trailer| == BITMAP_BYTECNT && i < BITMAP_COUNT
  {
    BitAt(trailer, 10 * i + 8) && BitAt(trailer, 10 * i + 9)
  }

  // ----- zbm_handle_compressed_chunk, zbm_handle_chunk, zbm_decompress

  function StartState(c: seq<byte>, out: seq<byte>): (s: State)
    requires |c| >= CMP_CHUNK_HDR
  {
    State(out, 0, 8, CMP_CHUNK_HDR, ReadU24(c, 6), ReadU24(c, 9), 2 * ReadU24(c, 12))
  }

  function DecodeCompressed(c: seq<byte>, out: seq<byte>, decmpLen: nat): (r: Result<seq<byte>>)
    ensures r.Err? ==> r.error.Inval?
    ensures r.Ok? ==> |c| >= CMP_CHUNK_HDR
    ensures r.Ok? ==> out <= r.value && |r.value| == |out| + decmpLen
  {
    if |c| < CMP_CHUNK_HDR then Err(Inval)
    else if ReadU24(c, 6) >= |c| || ReadU24(c, 9) >= |c| || ReadU24(c, 12) >= |c| then Err(Inval)
    else if |c| < BITMAP_BYTECNT then Err(Inval)
    else
      var tops := ReadBmaps(c[|c| - BITMAP_BYTECNT..]);
      if !ValidTops(tops) then Err(Inval)
      else
        var s := DecodeAll(c, tops, StartState(c, out), decmpLen);
        if s.Err? then Err(s.error) else Ok(s.value.out)
  }

  /** A chunk whose length is that of its output plus a header is a stored one. */
  function DecodeChunk(c: seq<byte>, out: seq<byte>, decmpLen: nat): (r: Result<seq<byte>>)
    ensures r.Err? ==> r.error.Inval?
    ensures r.Ok? ==> out <= r.value && |r.value| == |out| + decmpLen
  {
    if |c| == decmpLen + CHUNK_HDR then Ok(out + c[CHUNK_HDR..])
    else DecodeCompressed(c, out, decmpLen)
  }

  /** All the chunks of src, up to and including the one with no output. */
  function DecodeChunks(src: seq<byte>, out: seq<byte>, destSize: nat): (r: Result<seq<byte>>)
    requires |out| <= destSize
    ensures r.Ok? ==> out <= r.value && |r.value| <= destSize
    decreases |src|
  {
    if |src| < CHUNK_HDR then Err(Inval)
    else
      var len, decmpLen := ReadU24(src, 0), ReadU24(src, 3);
      if len > |src| then Err(Inval)
      else if decmpLen > MAX_DECMP_CHUNK_SIZE then Err(Inval)
      else if decmpLen > destSize - |out| then Err(Range)
      else
        var next := DecodeChunk(src[..len], out, decmpLen);
        if next.Err? || decmpLen == 0 then next
        else DecodeChunks(src[len..], next.value, destSize)
  }

  function Decompress(src: seq<byte>, destSize: nat): (r: Result<seq<byte>>)
    ensures r.Ok? ==> |r.value| <= destSize
  {
    if |src| < 4 || src[..4] != MAGIC then Err(Inval) else DecodeChunks(src[4..], [], destSize)
  }
}
