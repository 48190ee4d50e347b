/** The decoder as the source runs it (lib/libzbitmap.c:54-436): a state whose
    cursors move step by step over the current chunk, and a destination buffer
    that is written in place. Indexing the chunk and the buffer is checked, so no
    run, failed or not, reads past the chunk or writes past the buffer. */
module ZbmDecoder {
  import opened Prelude
  import opened ZbmFormat
  import opened ZbmDecode

  class Decoder {
    const dest: array<byte>
    var pos: nat           // where the next byte goes in dest
    var written: nat
    var period: nat

    var chunk: seq<byte>   // the current chunk, up to src_end
    var decmpLen: nat

    var data: nat
    var meta1: nat
    var meta2: nat
    var addr: nat          // nibble pointer
    var high: bool
    var bitmaps: seq<Bmap>

    ghost predicate Valid()
      reads this
    {
      && written <= decmpLen
      && written <= pos
      && pos + (decmpLen - written) <= dest.Length
    }

    ghost function View(): (s: State)
      requires Valid()
      reads this, dest
    {
      State(dest[..pos], written, period, data, meta1, meta2, 2 * addr + (if high then 1 else 0))
    }

    constructor (dest: array<byte>)
      ensures Valid() && this.dest == dest && pos == 0
    {
      this.dest := dest;
      pos, written, period := 0, 0, 0;
      chunk, decmpLen := [], 0;
      data, meta1, meta2, addr, high := 0, 0, 0, 0, false;
      bitmaps := [];
    }

    /** zbm_read_nibble */
    method ReadNibble() returns (ok: bool, n: byte)
      requires Valid()
      modifies this`addr, this`high
      ensures Valid() && ok == (old(View()).nibble / 2 < |chunk|)
      ensures ok ==> n == NibbleAt(chunk, old(View()).nibble)
      ensures View() == old(View()).(nibble := View().nibble)
      ensures ok ==> View().nibble == old(View()).nibble + 1
    {
      if addr >= |chunk| {
        return false, 0;
      }
      ok := true;
      if !high {
        n := chunk[addr] & 0xf;
        high := true;
      } else {
        n := (chunk[addr] >> 4) & 0xf;
        high := false;
        addr := addr + 1;
      }
    }

    /** zbm_rewind_nibble */
    method RewindNibble()
      requires Valid() && View().nibble > 0
      modifies this`addr, this`high
      ensures Valid() && View() == old(View()).(nibble := old(View()).nibble - 1)
    {
      if !high {
        high := true;
        addr := addr - 1;
      } else {
        high := false;
      }
    }

    /** The period at the start of zbm_apply_bitmap, read one byte at a time. */
    method LoadPeriod(cnt: nat) returns (ok: bool)
      requires Valid() && cnt <= MAX_PERIOD_BYTECNT
      modifies this`period, this`meta1
      ensures Valid() && ok == ReadPeriod(chunk, old(View()), cnt).Ok?
      ensures ok ==> View() == ReadPeriod(chunk, old(View()), cnt).value
    {
      if cnt > 0 {
        period := 0;
        for i := 0 to cnt
          modifies this`period, this`meta1
          invariant Valid() && meta1 == old(meta1) + i
          invariant i > 0 ==> meta1 <= |chunk|
          invariant i == 0 ==> period == 0
          invariant i == 1 ==> period == ByteVal(chunk[old(meta1)])
          invariant i == 2 ==> period == ByteVal(chunk[old(meta1)]) + 256 * ByteVal(chunk[old(meta1) + 1])
        {
          if meta1 >= |chunk| {
            return false;
          }
          period := period + ByteVal(chunk[meta1]) * (if i == 0 then 1 else 256);
          meta1 := meta1 + 1;
        }
      }
      ok := true;
    }

    /** One byte of output, with the cursor and the counts moved on. */
    method PutByte(x: byte)
      requires Valid() && written < decmpLen
      modifies this`pos, this`written, dest
      ensures Valid() && pos == old(pos) + 1 && written == old(written) + 1
      ensures dest[..pos] == old(dest[..pos]) + [x]
    {
      dest[pos] := x;
      pos := pos + 1;
      written := written + 1;
    }

    /** One bit of a bitmap: a literal, or a copy from one period back. */
    method CopyBit(bitmap: byte, i: nat, ghost n: nat) returns (ok: bool)
      requires Valid() && period > 0 && i < n <= 8 && written < decmpLen
      modifies this`pos, this`written, this`data, dest
      ensures Valid() && (ok ==> pos == old(pos) + 1 && written == old(written) + 1)
      ensures old(ApplyBits(chunk, Copied(dest[..pos], data), period, bitmap, i, n))
              == if ok then ApplyBits(chunk, Copied(dest[..pos], data), period, bitmap, i + 1, n) else Err(Inval)
    {
      hide Bit, ApplyBits;
      ghost var before := dest[..pos];
      if Bit(bitmap, i) {
        if data >= |chunk| {
          ApplyFails(chunk, before, data, period, bitmap, i, n);
          return false;
        }
        ApplyLiteral(chunk, before, data, period, bitmap, i, n);
        PutByte(chunk[data]);
        data := data + 1;
      } else {
        if pos < period {
          ApplyFails(chunk, before, data, period, bitmap, i, n);
          return false;
        }
        ApplyCopy(chunk, before, data, period, bitmap, i, n);
        PutByte(dest[pos - period]);
      }
      ok := true;
    }

    /** The copy loop of zbm_apply_bitmap. */
    method CopyBits(bitmap: byte) returns (ok: bool)
      requires Valid() && period > 0
      modifies this`pos, this`written, this`data, dest
      ensures Valid()
      ensures var n := Min(8, decmpLen - old(written));
              var r := ApplyBits(chunk, Copied(old(dest[..pos]), old(data)), period, bitmap, 0, n);
              && ok == r.Ok?
              && (ok ==> dest[..pos] == r.value.out && data == r.value.data && written == old(written) + n)
    {
      hide Bit, ApplyBits;
      ghost var n := Min(8, decmpLen - written);
      ghost var r := ApplyBits(chunk, Copied(dest[..pos], data), period, bitmap, 0, n);
      var i := 0;
      while i < 8 && written < decmpLen
        modifies this`pos, this`written, this`data, dest
        invariant 0 <= i <= n && Valid() && written == old(written) + i
        invariant r == ApplyBits(chunk, Copied(dest[..pos], data), period, bitmap, i, n)
      {
        ok := CopyBit(bitmap, i, n);
        if !ok {
          return;
        }
        i := i + 1;
      }
      ApplyNothing(chunk, dest[..pos], data, period, bitmap, n);
      ok := true;
    }

    /** zbm_apply_bitmap */
    method ApplyOne(b: Bmap) returns (ok: bool)
      requires Valid() && b.periodBytecnt <= MAX_PERIOD_BYTECNT
      modifies this`pos, this`written, this`data, this`period, this`meta1, dest
      ensures Valid()
      ensures var r := ApplyBitmap(chunk, old(View()), b, decmpLen);
              ok == r.Ok? && (ok ==> View() == r.value)
    {
      hide ApplyBits, ReadPeriod;
      ok := LoadPeriod(b.periodBytecnt);
      if !ok {
        return;
      }
      if period == 0 {
        return false;
      }
      ok := CopyBits(b.bitmap);
    }

    /** zbm_apply_bitmap_number */
    method ApplyByNumber(num: byte) returns (ok: bool)
      requires Valid() && ValidTops(bitmaps) && num <= 15
      modifies this`pos, this`written, this`data, this`period, this`meta1, this`meta2, dest
      ensures Valid()
      ensures var r := ApplyNumber(chunk, bitmaps, old(View()), num, decmpLen);
              ok == r.Ok? && (ok ==> View() == r.value)
    {
      hide ApplyBitmap;
      if num == 15 {
        return false;
      }
      NumRange(num);
      var i := ByteVal(num);
      if i > MAX_PERIOD_BYTECNT {
        ok := ApplyOne(bitmaps[i - BITMAP_BASE]);
        return;
      }
      if meta2 >= |chunk| {
        return false;
      }
      meta2 := meta2 + 1;
      ok := ApplyOne(Bmap(chunk[meta2 - 1], i));
    }

    /** zbm_read_repetition_count */
    method ReadRepetitionCount() returns (ok: bool, repeat: nat)
      requires Valid()
      modifies this`addr, this`high
      ensures Valid()
      ensures var r := ReadRepetition(chunk, old(View()).nibble, decmpLen - written);
              ok == r.Ok? && (ok ==> View() == old(View()).(nibble := r.value.0) && repeat == r.value.1)
    {
      hide NibbleAt, ReadCount;
      if decmpLen - written <= 8 {
        return true, 1;
      }
      var nibble;
      ok, nibble := ReadNibble();
      if !ok {
        return false, 0;
      }
      if nibble != 15 {
        RewindNibble();
        return true, 1;
      }
      ok, repeat := ReadRest();
    }

    /** The nibbles of a repetition count. */
    method ReadRest() returns (ok: bool, repeat: nat)
      requires Valid()
      modifies this`addr, this`high
      ensures Valid()
      ensures var r := ReadCount(chunk, old(View()).nibble, 4);
              ok == r.Ok? && (ok ==> View() == old(View()).(nibble := r.value.0) && repeat == r.value.1)
    {
      hide NibbleAt;
      var nibble: byte := 15;
      repeat := 4;
      ghost var r := ReadCount(chunk, View().nibble, 4);
      while nibble == 15
        modifies this`addr, this`high
        invariant Valid() && View() == old(View()).(nibble := View().nibble)
        invariant repeat < 0x1_0000
        invariant if nibble == 15 then r == ReadCount(chunk, View().nibble, repeat) else r == Ok((View().nibble, repeat))
        decreases nibble == 15, 2 * |chunk| - View().nibble
      {
        ok, nibble := ReadNibble();
        if !ok {
          return false, 0;
        }
        WrapCheck(repeat, ByteVal(nibble));
        repeat := (repeat + ByteVal(nibble)) % 0x1_0000;
        if repeat < ByteVal(nibble) {
          return false, 0;
        }
      }
      ok := true;
    }

    /** zbm_decompress_single_bitmap */
    method DecompressSingleBitmap() returns (ok: bool)
      requires Valid() && ValidTops(bitmaps) && written < decmpLen
      modifies this`pos, this`written, this`data, this`period, this`meta1, this`meta2, this`addr, this`high, dest
      ensures Valid()
      ensures var r := DecodeSingle(chunk, bitmaps, old(View()), decmpLen);
              ok == r.Ok? && (ok ==> View() == r.value)
    {
      hide NibbleAt, ApplyNumber, ReadRepetition;
      var num, repeat;
      ok, num := ReadNibble();
      if !ok {
        return;
      }
      ok, repeat := ReadRepetitionCount();
      if !ok {
        return;
      }
      ghost var r := ApplyRepeated(chunk, bitmaps, View(), num, repeat, decmpLen);
      for i := 0 to repeat
        modifies this`pos, this`written, this`data, this`period, this`meta1, this`meta2, dest
        invariant Valid() && r == ApplyRepeated(chunk, bitmaps, View(), num, repeat - i, decmpLen)
      {
        ok := ApplyByNumber(num);
        if !ok {
          return;
        }
      }
    }

    /** zbm_read_bitmaps, with zbm_read_single_bitmap bit by bit */
    method ReadTrailer() returns (ok: bool)
      requires Valid()
      modifies this`bitmaps
      ensures Valid() && View() == old(View())
      ensures |chunk| < BITMAP_BYTECNT ==> !ok
      ensures |chunk| >= BITMAP_BYTECNT ==>
                var tops := ReadBmaps(chunk[|chunk| - BITMAP_BYTECNT..]);
                ok == ValidTops(tops) && (ok ==> bitmaps == tops)
    {
      hide ReadBmap;
      if |chunk| < BITMAP_BYTECNT {
        return false;
      }
      var trailer := chunk[|chunk| - BITMAP_BYTECNT..];
      bitmaps := [];
      for i := 0 to BITMAP_COUNT
        modifies this`bitmaps
        invariant |bitmaps| == i && forall j | 0 <= j < i :: bitmaps[j] == ReadBmap(trailer, j)
        invariant forall j | 0 <= j < i :: bitmaps[j].periodBytecnt <= MAX_PERIOD_BYTECNT
      {
        var b := ReadBmap(trailer, i);
        bitmaps := bitmaps + [b];
        if b.periodBytecnt > MAX_PERIOD_BYTECNT {
          assert ReadBmaps(trailer)[i] == b;
          return false;
        }
      }
      ok := true;
    }

    /** The offsets in the header of a compressed chunk. */
    method ReadHeader() returns (ok: bool)
      requires Valid() && written == 0
      modifies this`data, this`period, this`meta1, this`meta2, this`addr, this`high
      ensures Valid()
      ensures ok <==> |chunk| >= CMP_CHUNK_HDR && ReadU24(chunk, 6) < |chunk| && ReadU24(chunk, 9) < |chunk| && ReadU24(chunk, 12) < |chunk|
      ensures ok ==> View() == StartState(chunk, dest[..pos])
    {
      hide ReadU24;
      period := 8;
      if |chunk| < CMP_CHUNK_HDR {
        return false;
      }
      data := CMP_CHUNK_HDR;
      var off1, off2, off3 := ReadU24(chunk, 6), ReadU24(chunk, 9), ReadU24(chunk, 12);
      if off1 >= |chunk| || off2 >= |chunk| || off3 >= |chunk| {
        return false;
      }
      meta1, meta2, addr, high := off1, off2, off3, false;
      ok := true;
    }

    /** zbm_handle_compressed_chunk */
    method HandleCompressedChunk() returns (ok: bool)
      requires Valid() && written == 0
      modifies this`pos, this`written, this`data, this`period, this`meta1, this`meta2, this`addr, this`high, this`bitmaps, dest
      ensures Valid()
      ensures var r := DecodeCompressed(chunk, old(dest[..pos]), decmpLen);
              ok == r.Ok? && (ok ==> dest[..pos] == r.value)
    {
      hide ReadU24, ReadBmaps, DecodeAll, ValidTops, StartState;
      ok := ReadHeader();
      if !ok {
        return;
      }
      ok := ReadTrailer();
      if !ok {
        return;
      }
      ok := DecompressBitmaps();
    }

    /** The loop over the bitmap numbers of a chunk. */
    method DecompressBitmaps() returns (ok: bool)
      requires Valid() && ValidTops(bitmaps)
      modifies this`pos, this`written, this`data, this`period, this`meta1, this`meta2, this`addr, this`high, dest
      ensures Valid()
      ensures var r := DecodeAll(chunk, bitmaps, old(View()), decmpLen); ok == r.Ok? && (ok ==> View() == r.value)
    {
      hide DecodeSingle, ValidTops;
      ghost var r := DecodeAll(chunk, bitmaps, View(), decmpLen);
      while written < decmpLen
        modifies this`pos, this`written, this`data, this`period, this`meta1, this`meta2, this`addr, this`high, dest
        invariant Valid() && r == DecodeAll(chunk, bitmaps, View(), decmpLen)
        decreases decmpLen - written
      {
        ok := DecompressSingleBitmap();
        if !ok {
          return;
        }
      }
      ok := true;
    }

    /** zbm_handle_uncompressed_chunk */
    method HandleUncompressedChunk()
      requires Valid() && written == 0 && |chunk| == decmpLen + CHUNK_HDR
      modifies this`pos, this`written, this`data, dest
      ensures Valid() && dest[..pos] == old(dest[..pos]) + chunk[CHUNK_HDR..]
    {
      data := CHUNK_HDR;
      ghost var before := dest[..pos];
      forall i | 0 <= i < decmpLen {
        dest[pos + i] := chunk[CHUNK_HDR + i];
      }
      pos := pos + decmpLen;
      written := decmpLen;
      assert dest[..pos] == before + chunk[CHUNK_HDR..];
    }
  }

  /** zbm_decompress with a destination buffer: on success the first out_len
      bytes of the buffer are the decoded stream; every failure is the one that
      the specification names. */
  method DecompressInto(dest: array<byte>, src: seq<byte>) returns (r: Result<nat>)
    modifies dest
    ensures var spec := Decompress(src, dest.Length);
            && r.Ok? == spec.Ok?
            && (r.Ok? ==> r.value <= dest.Length && dest[..r.value] == spec.value)
            && (r.Err? ==> r.error == spec.error)
  {
    hide ReadU24, DecodeCompressed;
    if |src| < 4 || src[..4] != MAGIC {
      return Err(Inval);
    }
    var state := new Decoder(dest);
    var rest := src[4..];
    ghost var spec := DecodeChunks(rest, [], dest.Length);
    var more := true;
    while more
      modifies state, dest
      invariant fresh(state) && state.Valid() && state.dest == dest && state.pos <= dest.Length
      invariant more ==> spec == DecodeChunks(rest, dest[..state.pos], dest.Length)
      invariant !more ==> spec == Ok(dest[..state.pos])
      decreases more, |rest|
    {
      if |rest| < CHUNK_HDR {
        return Err(Inval);
      }
      var len := ReadU24(rest, 0);
      if len > |rest| {
        return Err(Inval);
      }
      var decmpLen := ReadU24(rest, 3);
      if decmpLen > MAX_DECMP_CHUNK_SIZE {
        return Err(Inval);
      }
      if decmpLen > dest.Length - state.pos {
        return Err(Range);
      }
      state.chunk, state.decmpLen, state.written := rest[..len], decmpLen, 0;
      if len == decmpLen + CHUNK_HDR {
        state.HandleUncompressedChunk();
      } else {
        var ok := state.HandleCompressedChunk();
        if !ok {
          return Err(Inval);
        }
      }
      rest := rest[len..];
      more := decmpLen != 0;
    }
    r := Ok(state.pos);
  }
}
