/** How much room a compressed stream can take (lib/libzbitmap.c:1076-1091). */
module ZbmBound {
  import opened Prelude
  import opened ZbmFormat
  import E = ZbmEncode
  import R = ZbmRoundTrip
  import opened ZbmEncoder

  /** The number of chunks that n bytes take, without the last empty one. */
  function Chunks(n: nat): nat { (n + 0x7FFF) / 0x8000 }

  /** The magic, stored chunks only, and the empty chunk at the end. */
  function MaxLength(n: nat): nat { 4 + Chunks(n) * 0x8006 + 6 }

  /** zmb_max_compressed_length(), on 64-bit sizes: the two tests are enough to
      tell that something wrapped around. */
  method MaxCompressedLength(n: nat) returns (r: Result<nat>)
    requires n < U64
    ensures r.Ok? <==> MaxLength(n) < U64
    ensures r.Ok? ==> r.value == MaxLength(n)
    ensures r.Err? ==> r.error == Overflow
  {
    var count := ((n + 0x7FFF) % 0x1_0000_0000_0000_0000) / 0x8000;
    if (count * 0x8000) % 0x1_0000_0000_0000_0000 < n {
      return Err(Overflow);
    }
    var len := (4 + count * 0x8006 + 6) % 0x1_0000_0000_0000_0000;
    if len < n {
      return Err(Overflow);
    }
    r := Ok(len);
  }

  lemma ChunkFits(src: seq<byte>, off: nat)
    requires E.ChunkStart(src, off)
    ensures |E.EncodeChunk(src, off)| <= E.ChunkLen(src, off) + CHUNK_HDR
  {
    hide *;
    R.ChunkReads(src, off);
  }

  lemma ChunkCount(src: seq<byte>, off: nat)
    requires E.ChunkStart(src, off) && off < |src|
    ensures Chunks(|src| - off) == 1 + Chunks(|src| - off - E.ChunkLen(src, off)) && E.ChunkLen(src, off) <= 0x8000
  {
  }

  lemma {:induction false} RoomEnough(src: seq<byte>, off: nat, left: int)
    requires E.ChunkStart(src, off) && left >= Chunks(|src| - off) * 0x8006 + 6
    ensures Room(src, off, left) && |E.EncodeChunks(src, off)| <= Chunks(|src| - off) * 0x8006 + 6
    decreases |src| - off
  {
    hide Chunks, E.EncodeChunk;
    ChunkFits(src, off);
    NoChunks();
    if off < |src| {
      ChunkCount(src, off);
      E.NextStart(src, off);
      RoomEnough(src, off + E.ChunkLen(src, off), left - |E.EncodeChunk(src, off)|);
    }
  }

  lemma NoChunks()
    ensures Chunks(0) == 0 && forall n: nat | n > 0 :: Chunks(n) > 0
  {
  }

  /** No stream is longer than that, and with that much room compression always
      succeeds. */
  lemma BoundIsEnough(src: seq<byte>, destSize: nat)
    requires destSize >= MaxLength(|src|)
    ensures |E.Compress(src)| <= MaxLength(|src|) && Room(src, 0, destSize - 4)
  {
    hide E.EncodeChunks, E.EncodeChunk, Room;
    RoomEnough(src, 0, destSize - 4);
  }

  /** The first chunk starts with eight literals after its header. With 15 or 16
      bytes these already pass the limit, and the chunk is stored. */
  lemma ShortFirstChunk(src: seq<byte>, len: nat)
    requires 15 <= len <= 16 && len <= |src|
    ensures E.BuildCompressed(src, 0, len) == None
  {
    hide E.EncodeOps, E.FindTops, E.Meta1, E.Meta2, E.Nibbles, E.Nums, PackNibbles, E.WriteTrailer;
  }
}
