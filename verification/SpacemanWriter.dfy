/** The chunk-info blocks and their address blocks, as mkapfs writes them
    (mkapfs/spaceman.c:247-374). */
module SpacemanWriter {
  import opened Prelude
  import opened SpacemanLayout

  datatype Chunk = Chunk(xid: nat, addr: nat, blocks: nat, free: int, bitmap: nat)

  datatype Block = Cib(xid: nat, index: nat, chunks: seq<Chunk>) | Cab(xid: nat, index: nat, addrs: seq<nat>)

  /** A device structure of the space manager, and the addresses it lists. */
  datatype Device = Device(blocks: nat, chunks: nat, cibs: nat, cabs: nat, free: int, addrs: seq<nat>)

  // ----- What is to be written

  function ChunkAt(i: Info, k: nat): (c: Chunk)
    requires 32768 * k < i.blockCount
  {
    var blocks := Min(32768, i.blockCount - 32768 * k);
    Chunk(1, 32768 * k, blocks, (blocks - UsedInChunk(i, k)) % 0x1_0000_0000,
          if 32768 * k < i.UsedBlocksEnd() then i.FirstBitmap() + k else 0)
  }

  function ChunksFrom(i: Info, a: nat, b: nat): (s: seq<Chunk>)
    requires a <= b && (a < b ==> 32768 * (b - 1) < i.blockCount)
    ensures |s| == b - a && forall k: nat | k < |s| :: s[k] == ChunkAt(i, a + k)
    decreases b
  {
    if a == b then [] else ChunksFrom(i, a, b - 1) + [ChunkAt(i, b - 1)]
  }

  /** The numbers of chunks and blocks agree, as set_spaceman_info() leaves them. */
  predicate Counted(i: Info)
  {
    && i.chunkCount == (i.blockCount + 32767) / 32768
    && i.cibCount == (i.chunkCount + 125) / 126
    && i.cabCount == (var cabs := (i.cibCount + 506) / 507; if cabs == 1 then 0 else cabs)
  }

  function CibAt(i: Info, j: nat): (b: Block)
    requires Counted(i) && j < i.cibCount
  {
    Cib(1, j, ChunksFrom(i, 126 * j, Min(126 * j + 126, i.chunkCount)))
  }

  function Addresses(first: nat, count: nat): (s: seq<nat>)
    ensures |s| == count && forall k: nat | k < |s| :: s[k] == first + k
  {
    if count == 0 then [] else Addresses(first, count - 1) + [first + count - 1]
  }

  function CabAt(i: Info, j: nat): (b: Block)
    requires 507 * j <= i.cibCount
  {
    Cab(1, j, Addresses(i.FirstCib() + 507 * j, Min(507, i.cibCount - 507 * j)))
  }

  /** The first block of chunk k, or the end of the device. */
  function StartOf(i: Info, k: nat): (r: nat)
  {
    Min(32768 * k, i.blockCount)
  }

  // ----- How it is written

  /** Cibs and cabs are where they should be, up to some index. */
  ghost predicate CibsDone(i: Info, disk: map<nat, Block>, count: nat)
    requires Counted(i)
  {
    forall j: nat | j < count && j < i.cibCount :: CibDone(i, disk, j)
  }

  ghost predicate CibDone(i: Info, disk: map<nat, Block>, j: nat)
    requires Counted(i) && j < i.cibCount
  {
    i.FirstCib() + j in disk && disk[i.FirstCib() + j] == CibAt(i, j)
  }

  ghost predicate CabsDone(i: Info, disk: map<nat, Block>, count: nat)
    requires Counted(i)
  {
    forall j: nat | j < count && 507 * j < i.cibCount :: CabDone(i, disk, j)
  }

  ghost predicate CabDone(i: Info, disk: map<nat, Block>, j: nat)
    requires Counted(i) && 507 * j < i.cibCount
  {
    i.FirstCab() + j in disk && disk[i.FirstCab() + j] == CabAt(i, j)
  }

  lemma CibsMore(i: Info, disk: map<nat, Block>, j: nat)
    requires Counted(i) && CibsDone(i, disk, j) && j < i.cibCount
    ensures CibsDone(i, disk[i.FirstCib() + j := CibAt(i, j)], j + 1)
  {
    hide CibAt;
    var after := disk[i.FirstCib() + j := CibAt(i, j)];
    forall k: nat | k < j + 1 && k < i.cibCount
      ensures CibDone(i, after, k)
    {
      assert k < j ==> CibDone(i, disk, k);
    }
  }

  lemma CibsKept(i: Info, disk: map<nat, Block>, bno: nat, block: Block, count: nat)
    requires Counted(i) && CibsDone(i, disk, count) && bno >= i.FirstCab()
    ensures CibsDone(i, disk[bno := block], count)
  {
    hide CibAt;
    var after := disk[bno := block];
    forall k: nat | k < count && k < i.cibCount
      ensures CibDone(i, after, k)
    {
      assert CibDone(i, disk, k);
    }
  }

  lemma CabsMore(i: Info, before: map<nat, Block>, disk: map<nat, Block>, j: nat)
    requires Counted(i) && CabsDone(i, before, j) && 507 * j < i.cibCount && CabDone(i, disk, j)
    requires forall b: nat | b >= i.FirstCab() && b != i.FirstCab() + j && b in before :: b in disk && disk[b] == before[b]
    ensures CabsDone(i, disk, j + 1)
  {
    hide CabAt;
    forall k: nat | k < j + 1 && 507 * k < i.cibCount
      ensures CabDone(i, disk, k)
    {
      assert k < j ==> CabDone(i, before, k);
    }
  }

  function TotalUsed(i: Info, end: nat): (r: int)
  {
    if end == 0 then 0 else TotalUsed(i, end - 1) + UsedInChunk(i, end - 1)
  }

  ghost predicate Written(i: Info, d: Device, disk: map<nat, Block>)
  {
    && Counted(i)
    && d.blocks == i.blockCount && d.chunks == i.chunkCount && d.cibs == i.cibCount && d.cabs == i.cabCount
    && d.free == i.blockCount - TotalUsed(i, i.UsedChunksEnd())
    && CibsDone(i, disk, i.cibCount)
    && if i.cabCount == 0 then d.addrs == Addresses(i.FirstCib(), i.cibCount)
       else d.addrs == Addresses(i.FirstCab(), i.cabCount) && CabsDone(i, disk, i.cabCount)
  }

  class Writer {
    const info: Info
    var disk: map<nat, Block>

    constructor (i: Info)
      ensures info == i && disk == map[]
    {
      info, disk := i, map[];
    }

    method MakeChunkInfo(start: nat) returns (c: Chunk, next: nat)
      requires start < info.blockCount && start % 32768 == 0
      ensures c == ChunkAt(info, start / 32768) && next == StartOf(info, start / 32768 + 1)
    {
      var remaining := info.blockCount - start;
      var chunkno := start / 32768;
      var bitmap := if start < info.UsedBlocksEnd() then info.FirstBitmap() + chunkno else 0;
      var blocks := 32768;
      if remaining < blocks {
        blocks := remaining;
      }
      c := Chunk(1, start, blocks, (blocks - UsedInChunk(info, chunkno)) % 0x1_0000_0000, bitmap);
      next := start + blocks;
    }

    method MakeCib(bno: nat, index: nat, start: nat) returns (next: nat)
      requires Counted(info) && index < info.cibCount && start == StartOf(info, 126 * index)
      modifies this
      ensures disk == old(disk)[bno := CibAt(info, index)]
      ensures next == StartOf(info, 126 * index + 126)
    {
      hide ChunkAt, StartOf, Counted, ChunksFrom;
      next := start;
      var chunks: seq<Chunk> := [];
      NoChunks(info, index);
      var i := 0;
      while i < 126
        invariant 0 <= i <= 126 && 126 * index + i <= info.chunkCount && next == StartOf(info, 126 * index + i)
        invariant (i > 0 ==> 32768 * (126 * index + i - 1) < info.blockCount) && disk == old(disk)
        invariant chunks == ChunksFrom(info, 126 * index, 126 * index + i)
      {
        StartIs(info, 126 * index + i);
        if next == info.blockCount {
          break;
        }
        var c;
        c, next := MakeChunkInfo(next);
        NextChunk(info, 126 * index, 126 * index + i);
        chunks := chunks + [c];
        i := i + 1;
      }
      CibEnds(info, index, 126 * index + i);
      disk := disk[bno := Cib(1, index, chunks)];
    }

    method MakeCab(bno: nat, index: nat, start: nat) returns (next: nat)
      requires Counted(info) && index < info.cabCount && start == StartOf(info, 63882 * index) && bno >= info.FirstCab()
      requires CibsDone(info, disk, 507 * index)
      modifies this
      ensures CibsDone(info, disk, 507 * index + 507) && next == StartOf(info, 63882 * index + 63882)
      ensures bno in disk && disk[bno] == CabAt(info, index)
      ensures forall b: nat | b >= info.FirstCab() && b != bno && b in old(disk) :: b in disk && disk[b] == old(disk)[b]
    {
      hide CibAt, StartOf, CibsDone, Addresses, Counted;
      StartFacts(info, index);
      var addrs;
      addrs, next := MakeCibs(index, start);
      AllWritten(info, disk, index, |addrs|);
      CibsKept(info, disk, bno, Cab(1, index, addrs), 507 * index + 507);
      disk := disk[bno := Cab(1, index, addrs)];
    }

    /** The chunk-info blocks of one address block. */
    method MakeCibs(index: nat, start: nat) returns (addrs: seq<nat>, next: nat)
      requires Counted(info) && index < info.cabCount && start == StartOf(info, 126 * (507 * index))
      requires CibsDone(info, disk, 507 * index)
      modifies this
      ensures |addrs| <= 507 && 507 * index + |addrs| <= info.cibCount && (|addrs| == 507 || 507 * index + |addrs| == info.cibCount)
      ensures addrs == Addresses(info.FirstCib() + 507 * index, |addrs|) && next == StartOf(info, 126 * (507 * index + |addrs|))
      ensures CibsDone(info, disk, 507 * index + |addrs|)
      ensures forall b: nat | b >= info.FirstCab() && b in old(disk) :: b in disk && disk[b] == old(disk)[b]
    {
      hide CibAt, StartOf, CibsDone, Addresses, Counted;
      next, addrs := start, [];
      NoCibs(info, index);
      for i := 0 to 507
        invariant |addrs| == i && 507 * index + i <= info.cibCount && next == StartOf(info, 126 * (507 * index + i))
        invariant addrs == Addresses(info.FirstCib() + 507 * index, i)
        invariant CibsDone(info, disk, 507 * index + i)
        invariant forall b: nat | b >= info.FirstCab() && b in old(disk) :: b in disk && disk[b] == old(disk)[b]
      {
        EndFacts(info, 507 * index + i);
        if next == info.blockCount {
          break;
        }
        var cibIndex := 507 * index + i;
        NextAddress(info.FirstCib() + 507 * index, i);
        addrs := addrs + [info.FirstCib() + cibIndex];
        CibsMore(info, disk, cibIndex);
        next := MakeCib(info.FirstCib() + cibIndex, cibIndex, next);
      }
    }

    /** make_single_device() */
    method MakeDevice() returns (d: Device)
      requires Counted(info) && disk == map[]
      modifies this
      ensures Written(info, d, disk)
    {
      hide CibAt, CabAt, StartOf, UsedInChunk, TotalUsed;
      var used := CountAllUsed();
      StartZero(info);
      var start, addrs: seq<nat> := 0, [];
      if info.cabCount == 0 {
        for i := 0 to info.cibCount
          invariant start == StartOf(info, 126 * i) && addrs == Addresses(info.FirstCib(), i)
          invariant CibsDone(info, disk, i)
        {
          addrs := addrs + [info.FirstCib() + i];
          CibsMore(info, disk, i);
          start := MakeCib(info.FirstCib() + i, i, start);
        }
      } else {
        for i := 0 to info.cabCount
          invariant start == StartOf(info, 63882 * i) && addrs == Addresses(info.FirstCab(), i)
          invariant CibsDone(info, disk, 507 * i) && CabsDone(info, disk, i)
        {
          addrs := addrs + [info.FirstCab() + i];
          ghost var before := disk;
          start := MakeCab(info.FirstCab() + i, i, start);
          CabsMore(info, before, disk, i);
        }
      }
      d := Device(info.blockCount, info.chunkCount, info.cibCount, info.cabCount, info.blockCount - used, addrs);
    }

    /** count_used_blocks() */
    method CountAllUsed() returns (used: int)
      ensures used == TotalUsed(info, info.UsedChunksEnd())
    {
      hide UsedInChunk;
      used := 0;
      for k := 0 to info.UsedChunksEnd()
        invariant used == TotalUsed(info, k)
      {
        used := used + UsedInChunk(info, k);
      }
    }
  }

  lemma NoChunks(i: Info, j: nat)
    requires Counted(i) && j < i.cibCount
    ensures 126 * j < i.chunkCount && ChunksFrom(i, 126 * j, 126 * j) == []
  {
  }

  /** Where a chunk starts, and when there are no more. */
  lemma StartIs(i: Info, k: nat)
    requires Counted(i) && k <= i.chunkCount
    ensures StartOf(i, k) == i.blockCount <==> k == i.chunkCount
    ensures k < i.chunkCount ==> 32768 * k < i.blockCount && StartOf(i, k) == 32768 * k
    ensures k < i.chunkCount ==> StartOf(i, k) % 32768 == 0 && StartOf(i, k) / 32768 == k
  {
  }

  lemma NextChunk(i: Info, a: nat, b: nat)
    requires a <= b && 32768 * b < i.blockCount
    ensures ChunksFrom(i, a, b + 1) == ChunksFrom(i, a, b) + [ChunkAt(i, b)]
  {
  }

  /** A chunk-info block ends after 126 chunks, or with the device. */
  lemma CibEnds(i: Info, j: nat, k: nat)
    requires Counted(i) && j < i.cibCount && 126 * j <= k <= i.chunkCount && (k == 126 * j + 126 || (k < 126 * j + 126 && k == i.chunkCount))
    ensures k == Min(126 * j + 126, i.chunkCount) && StartOf(i, k) == StartOf(i, 126 * j + 126)
  {
  }

  lemma StartZero(i: Info)
    ensures StartOf(i, 0) == 0
  {
  }

  lemma StartFacts(i: Info, index: nat)
    ensures StartOf(i, 126 * (507 * index)) == StartOf(i, 63882 * index)
  {
  }

  /** The device ends exactly when all of its chunk-info blocks are written. */
  lemma EndFacts(i: Info, j: nat)
    requires Counted(i) && j <= i.cibCount
    ensures StartOf(i, 126 * j) == i.blockCount <==> j == i.cibCount
  {
  }

  lemma AllWritten(i: Info, disk: map<nat, Block>, index: nat, count: nat)
    requires Counted(i) && index < i.cabCount && count <= 507 && 507 * index + count <= i.cibCount
    requires count == 507 || 507 * index + count == i.cibCount
    requires CibsDone(i, disk, 507 * index + count)
    ensures StartOf(i, 126 * (507 * index + count)) == StartOf(i, 63882 * index + 63882)
    ensures count == Min(507, i.cibCount - 507 * index) && CibsDone(i, disk, 507 * index + 507)
  {
    hide CibDone;
  }

  lemma NoCibs(i: Info, index: nat)
    requires Counted(i) && index < i.cabCount
    ensures 507 * index <= i.cibCount && Addresses(i.FirstCib() + 507 * index, 0) == []
  {
  }

  lemma NextAddress(first: nat, count: nat)
    ensures Addresses(first, count + 1) == Addresses(first, count) + [first + count]
  {
  }
}
