/** What mkapfs writes, in the eyes of the checker: only the recorded free counts can
    be wrong, and they are exactly when the counts of the layout do not fit
    (mkapfs/spaceman.c:110-374, 516-584; apfsck/spaceman.c:218-365, 448-519). */
module SpacemanMade {
  import opened Prelude
  import opened SpacemanLayout
  import opened SpacemanWriter
  import opened SpacemanChecker

  /** The image holds what mkapfs wrote, and the used part of the pool has room. */
  ghost predicate MadeBy(m: Image, i: Info)
  {
    && Counted(i) && Made(i) && m.ipBase == i.ipBase && m.ipBlocks == i.ipBlocks && m.containerBlocks == i.blockCount
    && m.smXid == 1 && i.blockCount <= m.maxBlocks && i.ipBase > 0
    && i.UsedBlocksEnd() <= i.blockCount && (forall k: nat | k < i.UsedChunksEnd() :: BitsAt(m, i, k))
    && i.UsedChunksEnd() <= i.chunkCount && i.FirstCab() + i.cabCount <= i.ipBase + i.ipBlocks
    && CibsDone(i, m.disk, i.cibCount) && CabsDone(i, m.disk, i.cabCount)
  }

  /** The bitmap of a chunk is the one that make_main_alloc_bitmap() made. */
  ghost predicate BitsAt(m: Image, i: Info, k: nat)
  {
    m.bits(i.FirstBitmap() + k) == CountUsed(i, 32768 * k, 32768 * k + 32768)
  }

  /** The sum of the free counts of the chunks before k, if they are right. */
  function FreeBefore(i: Info, k: nat): int
  {
    StartOf(i, k) - TotalUsed(i, k)
  }

  /** What of the pool is in use after some chunks, cibs and cabs. */
  ghost predicate PoolAt(i: Info, ip: set<nat>, chunks: nat, cibs: nat, cabs: nat)
  {
    forall x: nat :: x in ip <==>
      || i.FirstBitmap() <= x < i.FirstBitmap() + Min(chunks, i.UsedChunksEnd())
      || i.FirstCib() <= x < i.FirstCib() + Min(cibs, i.cibCount)
      || i.FirstCab() <= x < i.FirstCab() + cabs
  }

  /** The recorded free counts of the chunks from a to b are right. */
  ghost predicate AllRight(m: Image, i: Info, a: nat, b: nat)
    requires Counted(i)
  {
    forall k: nat | a <= k < b && k < i.chunkCount :: FreeRight(m, ChunkAt(i, k))
  }

  /** Of a chunk that mkapfs made, only the free count can be wrong. */
  lemma MadeChunk(m: Image, i: Info, k: nat, isLast: bool, ip: set<nat>, cibs: nat, cabs: nat)
    requires MadeBy(m, i) && k < i.chunkCount && (k == i.chunkCount - 1 ==> isLast) && PoolAt(i, ip, k, cibs, cabs)
    ensures ChunkOk(m, ChunkAt(i, k), isLast, 32768 * k, ip) <==> FreeRight(m, ChunkAt(i, k))
    ensures var b := ChunkAt(i, k).bitmap;
            PoolAt(i, if b == 0 then ip else ip + {b}, k + 1, cibs, cabs)
  {
    hide FreeRight, UsedInChunk, CibsDone, CabsDone, PoolAt;
    MadeBitmap(i, k, ip, cibs, cabs);
  }

  lemma MadeBitmap(i: Info, k: nat, ip: set<nat>, cibs: nat, cabs: nat)
    requires i.ipBase > 0 && Counted(i) && k < i.chunkCount && PoolAt(i, ip, k, cibs, cabs)
    ensures var b := ChunkAt(i, k).bitmap;
            && PoolAt(i, if b == 0 then ip else ip + {b}, k + 1, cibs, cabs)
            && (b != 0 ==> k < i.UsedChunksEnd() && b == i.FirstBitmap() + k && b !in ip)
  {
    hide UsedInChunk;
  }

  lemma WholeDevice(m: Image, i: Info)
    requires MadeBy(m, i)
    ensures forall k: nat | k >= i.chunkCount :: AllRight(m, i, 0, k) == AllRight(m, i, 0, i.chunkCount)
    ensures forall k: nat | k >= i.chunkCount :: StartOf(i, k) == i.blockCount && FreeBefore(i, k) == i.blockCount - TotalUsed(i, i.UsedChunksEnd())
  {
    hide FreeRight, ChunkAt, TotalUsed;
    forall k: nat | k >= i.chunkCount
      ensures AllRight(m, i, 0, k) == AllRight(m, i, 0, i.chunkCount)
      ensures FreeBefore(i, k) == i.blockCount - TotalUsed(i, i.UsedChunksEnd())
    {
      UsedNoMore(i, i.UsedChunksEnd(), k);
    }
  }

  /** The walk is about to read a cib of mkapfs. */
  ghost predicate AtCib(m: Image, i: Info, ip: set<nat>, bno: nat, index: nat, start: nat, cibCount: nat, cabs: nat, free: int)
  {
    && MadeBy(m, i) && index < cibCount == i.cibCount && bno == i.FirstCib() + index
    && start == StartOf(i, 126 * index) && PoolAt(i, ip, 126 * index, index, cabs) && free == FreeBefore(i, 126 * index)
  }

  /** The walk is at chunk k of a cib of mkapfs, and all went well so far. */
  ghost predicate MidCib(m: Image, i: Info, ip: set<nat>, index: nat, k: nat, start: nat, cabs: nat, free: int)
  {
    && MadeBy(m, i) && index < i.cibCount && start == StartOf(i, 126 * index + k)
    && PoolAt(i, ip, 126 * index + k, index + 1, cabs) && AllRight(m, i, 126 * index, 126 * index + k)
    && free == FreeBefore(i, 126 * index + k)
  }

  lemma MadeCib(m: Image, i: Info, ip: set<nat>, bno: nat, index: nat, start: nat, cibCount: nat, cabs: nat, free: int)
    requires AtCib(m, i, ip, bno, index, start, cibCount, cabs, free)
    ensures Counted(i) && bno in m.disk && m.disk[bno] == CibAt(i, index) && m.smXid == 1
    ensures InPool(m, bno) && bno !in ip && MidCib(m, i, ip + {bno}, index, 0, start, cabs, free)
    ensures var count := |CibAt(i, index).chunks|;
            0 < count <= 126 && (index + 1 != cibCount ==> count == 126)
  {
    hide CibAt, CabsDone;
    assert CibDone(i, m.disk, index);
    CibSize(i, index);
  }

  lemma CibSize(i: Info, index: nat)
    requires Counted(i) && index < i.cibCount
    ensures CibAt(i, index).Cib? && CibAt(i, index).xid == 1 && CibAt(i, index).index == index
    ensures var count := |CibAt(i, index).chunks|;
            && 0 < count <= 126 && (index + 1 != i.cibCount ==> count == 126) && 126 * index + count <= i.chunkCount
            && (126 * index + count == i.chunkCount <==> index + 1 == i.cibCount)
    ensures forall k: nat | k < |CibAt(i, index).chunks| :: CibAt(i, index).chunks[k] == ChunkAt(i, 126 * index + k)
  {
  }

  lemma MidCibStep(m: Image, i: Info, ip: set<nat>, index: nat, k: nat, start: nat, cabs: nat, free: int, c: Chunk, isLast: bool)
    requires MidCib(m, i, ip, index, k, start, cabs, free) && Counted(i) && k < |CibAt(i, index).chunks| && c == CibAt(i, index).chunks[k]
    requires isLast == (index + 1 == i.cibCount && k == |CibAt(i, index).chunks| - 1)
    ensures ChunkOk(m, c, isLast, start, ip) <==> FreeRight(m, c)
    ensures c.xid == 1
    ensures FreeRight(m, c) ==> MidCib(m, i, if c.bitmap == 0 then ip else ip + {c.bitmap}, index, k + 1, start + c.blocks, cabs, free + c.free)
  {
    hide CibAt, PoolAt, MadeBy, FreeRight, ChunkOk, UsedInChunk;
    CibSize(i, index);
    MadeChunk(m, i, 126 * index + k, isLast, ip, index + 1, cabs);
    assert c == ChunkAt(i, 126 * index + k);
    RightFree(m, i, 126 * index + k);
  }

  lemma CibDoneHere(m: Image, i: Info, ip: set<nat>, index: nat, count: nat, start: nat, cabs: nat, free: int)
    requires MidCib(m, i, ip, index, count, start, cabs, free) && Counted(i) && count == |CibAt(i, index).chunks|
    ensures AllRight(m, i, 126 * index, 126 * index + 126)
    ensures start == StartOf(i, 126 * index + 126) && PoolAt(i, ip, 126 * index + 126, index + 1, cabs)
    ensures free == FreeBefore(i, 126 * index + 126)
  {
    hide CibAt, FreeRight, UsedInChunk, CibsDone, CabsDone, TotalUsed, BitsAt;
    CibSize(i, index);
    UsedNoMore(i, 126 * index + count, 126 * index + 126);
  }

  /** The walk after k chunks of a cib. */
  ghost predicate Seen(m: Image, i: Info, ip: set<nat>, chunks: seq<Chunk>, index: nat, k: nat, start: nat, cabs: nat, free: int)
    requires k <= |chunks|
  {
    MidCib(m, i, ip + Bitmaps(chunks[..k]), index, k, start + BlocksOf(chunks[..k]), cabs, free + TotalFree(chunks[..k]))
  }

  ghost predicate ChunksOfCib(i: Info, chunks: seq<Chunk>, index: nat)
  {
    Counted(i) && index < i.cibCount && CibAt(i, index).Cib? && chunks == CibAt(i, index).chunks
  }

  lemma SeenOne(m: Image, i: Info, ip: set<nat>, chunks: seq<Chunk>, index: nat, k: nat, start: nat, cabs: nat, free: int)
    requires ChunksOfCib(i, chunks, index) && k < |chunks| && Seen(m, i, ip, chunks, index, k, start, cabs, free)
    ensures ChunkAtOk(m, chunks, k, index + 1 == i.cibCount, start, ip) <==> FreeRight(m, chunks[k])
    ensures FreeRight(m, chunks[k]) ==> Seen(m, i, ip, chunks, index, k + 1, start, cabs, free)
  {
    hide MidCib, FreeRight, ChunkOk, BlocksOf, TotalFree, Bitmaps, CibAt, Counted;
    var ip', start', free' := ip + Bitmaps(chunks[..k]), start + BlocksOf(chunks[..k]), free + TotalFree(chunks[..k]);
    MidCibStep(m, i, ip', index, k, start', cabs, free', chunks[k], index + 1 == i.cibCount && k == |chunks| - 1);
    OneChunk(chunks, k);
    Grown(ip, Bitmaps(chunks[..k]), chunks[k].bitmap);
  }

  /** The chunks of a cib of mkapfs are accepted as far as their free counts are right. */
  lemma {:induction false} MadeChunks(m: Image, i: Info, ip: set<nat>, chunks: seq<Chunk>, index: nat, k: nat, start: nat, cabs: nat, free: int)
    requires ChunksOfCib(i, chunks, index) && k <= |chunks| && Seen(m, i, ip, chunks, index, 0, start, cabs, free)
    ensures ChunksOk(m, chunks, k, index + 1 == i.cibCount, start, ip) <==> Counted(i) && AllRight(m, i, 126 * index, 126 * index + k)
    ensures ChunksOk(m, chunks, k, index + 1 == i.cibCount, start, ip) ==> Seen(m, i, ip, chunks, index, k, start, cabs, free)
  {
    hide Seen, FreeRight, ChunkAtOk, CibAt, AllRight;
    if k == 0 {
      NoneSeen(m, i, ip, chunks, index, index + 1 == i.cibCount, start);
    } else {
      MadeChunks(m, i, ip, chunks, index, k - 1, start, cabs, free);
      MoreRight(m, i, index, k);
      if ChunksOk(m, chunks, k - 1, index + 1 == i.cibCount, start, ip) {
        SeenOne(m, i, ip, chunks, index, k - 1, start, cabs, free);
      }
    }
  }

  lemma NoneSeen(m: Image, i: Info, ip: set<nat>, chunks: seq<Chunk>, index: nat, last: bool, start: nat)
    requires Counted(i)
    ensures ChunksOk(m, chunks, 0, last, start, ip) && AllRight(m, i, 126 * index, 126 * index)
    ensures chunks[..0] == [] && ip + Bitmaps([]) == ip && BlocksOf([]) == 0 && TotalFree([]) == 0
  {
    EmptySums();
  }

  lemma Grown(ip: set<nat>, s: set<nat>, b: nat)
    ensures ip + (s + if b == 0 then {} else {b}) == if b == 0 then ip + s else ip + s + {b}
  {
  }

  lemma MoreRight(m: Image, i: Info, index: nat, k: nat)
    requires Counted(i) && index < i.cibCount && 0 < k <= |CibAt(i, index).chunks|
    ensures AllRight(m, i, 126 * index, 126 * index + k) <==>
            AllRight(m, i, 126 * index, 126 * index + (k - 1)) && FreeRight(m, CibAt(i, index).chunks[k - 1])
  {
    hide FreeRight, CibAt, ChunkAt;
    CibSize(i, index);
  }

  /** A cib of mkapfs is accepted if and only if its free counts are right. */
  lemma MadeCibOk(m: Image, i: Info, ip: set<nat>, bno: nat, index: nat, start: nat, cabs: nat, free: int)
    requires AtCib(m, i, ip, bno, index, start, i.cibCount, cabs, free)
    ensures CibOk(m, bno, index, start, i.cibCount, ip) <==> Counted(i) && AllRight(m, i, 126 * index, 126 * index + 126)
    ensures CibOk(m, bno, index, start, i.cibCount, ip) ==>
              var chunks := CibChunks(m, bno);
              && CibXid(m, bno) == 1 && start + BlocksOf(chunks) == StartOf(i, 126 * index + 126)
              && PoolAt(i, ip + {bno} + Bitmaps(chunks), 126 * index + 126, index + 1, cabs)
              && free + TotalFree(chunks) == FreeBefore(i, 126 * index + 126)
  {
    hide MadeBy, PoolAt, FreeRight, StartOf, FreeBefore, BlocksOf, TotalFree, Bitmaps, CibAt, ChunkAt, AllRight, MidCib, InPool;
    MadeCib(m, i, ip, bno, index, start, i.cibCount, cabs, free);
    CibSize(i, index);
    var chunks := CibAt(i, index).chunks;
    var n := |chunks|;
    NoneSeen(m, i, ip + {bno}, chunks, index, index + 1 == i.cibCount, start);
    MadeChunks(m, i, ip + {bno}, chunks, index, n, start, cabs, free);
    assert chunks[..n] == chunks;
    AllFirst(i, index);
    RightToEnd(m, i, index, n);
    if ChunksOk(m, chunks, n, index + 1 == i.cibCount, start, ip + {bno}) {
      CibDoneHere(m, i, ip + {bno} + Bitmaps(chunks), index, n, start + BlocksOf(chunks), cabs, free + TotalFree(chunks));
    }
  }

  lemma AllFirst(i: Info, index: nat)
    requires Counted(i) && index < i.cibCount
    ensures var chunks := CibAt(i, index).chunks;
            (forall k: nat | k < |chunks| :: chunks[k].xid == 1) && chunks[0].xid == 1
  {
    hide CibAt;
    CibSize(i, index);
  }

  lemma RightToEnd(m: Image, i: Info, index: nat, n: nat)
    requires Counted(i) && index < i.cibCount && n == |CibAt(i, index).chunks|
    ensures AllRight(m, i, 126 * index, 126 * index + n) <==> AllRight(m, i, 126 * index, 126 * index + 126)
  {
    hide FreeRight, CibAt, ChunkAt;
    CibSize(i, index);
  }

  // ----- Lists of cibs

  /** The walk has got past k of the cibs from index f on. */
  ghost predicate MidCibs(m: Image, i: Info, ip: set<nat>, f: nat, k: nat, start: nat, cabs: nat, free: int)
  {
    && MadeBy(m, i) && start == StartOf(i, 126 * (f + k)) && PoolAt(i, ip, 126 * (f + k), f + k, cabs)
    && AllRight(m, i, 126 * f, 126 * (f + k)) && free == FreeBefore(i, 126 * (f + k))
  }

  ghost predicate CibAddresses(i: Info, addrs: seq<nat>, f: nat)
  {
    f + |addrs| <= i.cibCount && forall k: nat | k < |addrs| :: addrs[k] == i.FirstCib() + f + k
  }

  lemma NextCib(m: Image, i: Info, ip: set<nat>, bno: nat, f: nat, k: nat, start: nat, cabs: nat, free: int)
    requires MidCibs(m, i, ip, f, k, start, cabs, free) && f + k < i.cibCount && bno == i.FirstCib() + f + k
    ensures Counted(i) && (CibOk(m, bno, f + k, start, i.cibCount, ip) <==> AllRight(m, i, 126 * (f + k), 126 * (f + k + 1)))
    ensures CibOk(m, bno, f + k, start, i.cibCount, ip) ==>
              var chunks := CibChunks(m, bno);
              MidCibs(m, i, ip + {bno} + Bitmaps(chunks), f, k + 1, start + BlocksOf(chunks), cabs, free + TotalFree(chunks)) && CibXid(m, bno) == 1
  {
    hide MadeBy, PoolAt, FreeRight, StartOf, FreeBefore, BlocksOf, TotalFree, Bitmaps, CibOk, AllRight, CibXid, CibChunks, Counted;
    MadeCounted(m, i);
    assert 126 * (f + k) + 126 == 126 * (f + k + 1) == 126 * (f + (k + 1));
    assert AtCib(m, i, ip, bno, f + k, start, i.cibCount, cabs, free);
    MadeCibOk(m, i, ip, bno, f + k, start, cabs, free);
    RightSplit(m, i, 126 * f, 126 * (f + k), 126 * (f + k + 1));
  }

  lemma {:induction false} MadeCibs(m: Image, i: Info, ip: set<nat>, addrs: seq<nat>, f: nat, k: nat, start: nat, cabs: nat, free: int)
    requires MidCibs(m, i, ip, f, 0, start, cabs, free) && CibAddresses(i, addrs, f) && k <= |addrs|
    ensures Counted(i) && (CibsOk(m, addrs, k, f, start, i.cibCount, ip) <==> AllRight(m, i, 126 * f, 126 * (f + k)))
    ensures CibsOk(m, addrs, k, f, start, i.cibCount, ip) ==>
              && MidCibs(m, i, ip + UsesOf(m, addrs, k), f, k, start + BlocksOf(ChunksOf(m, addrs, k)), cabs, free + TotalFree(ChunksOf(m, addrs, k)))
              && forall j: nat | j < k :: CibXid(m, addrs[j]) == 1
  {
    hide MidCibs, FreeRight, BlocksOf, TotalFree, Bitmaps, ChunksOf, UsesOf, CibOk, CibsOk, AllRight, CibXid, CibChunks, Counted;
    if k == 0 {
      NoneYet(m, i, ip, addrs, f, start, cabs, free);
    } else {
      MadeCibs(m, i, ip, addrs, f, k - 1, start, cabs, free);
      MoreCibs(m, addrs, k, f, start, i.cibCount, ip);
      assert f + k == f + (k - 1) + 1;
      RightSplit(m, i, 126 * f, 126 * (f + (k - 1)), 126 * (f + k));
      if CibsOk(m, addrs, k - 1, f, start, i.cibCount, ip) {
        var ip', start', free' := ip + UsesOf(m, addrs, k - 1), start + BlocksOf(ChunksOf(m, addrs, k - 1)), free + TotalFree(ChunksOf(m, addrs, k - 1));
        NextCib(m, i, ip', addrs[k - 1], f, k - 1, start', cabs, free');
        OneCib(m, addrs, k - 1);
        Joined(ip, UsesOf(m, addrs, k - 1), {addrs[k - 1]}, Bitmaps(CibChunks(m, addrs[k - 1])));
      }
    }
  }

  lemma NoneYet(m: Image, i: Info, ip: set<nat>, addrs: seq<nat>, f: nat, start: nat, cabs: nat, free: int)
    requires MidCibs(m, i, ip, f, 0, start, cabs, free)
    ensures Counted(i) && CibsOk(m, addrs, 0, f, start, i.cibCount, ip) && AllRight(m, i, 126 * f, 126 * f)
    ensures ip + UsesOf(m, addrs, 0) == ip && BlocksOf(ChunksOf(m, addrs, 0)) == 0 && TotalFree(ChunksOf(m, addrs, 0)) == 0
  {
    hide MadeBy, PoolAt, StartOf, FreeBefore;
    MadeCounted(m, i);
    EmptySums();
  }

  lemma Joined(ip: set<nat>, a: set<nat>, b: set<nat>, c: set<nat>)
    ensures ip + (a + b + c) == ip + a + b + c
  {
  }

  lemma MadeCounted(m: Image, i: Info)
    requires MadeBy(m, i)
    ensures Counted(i)
  {
  }

  lemma MoreCibs(m: Image, addrs: seq<nat>, k: nat, f: nat, start: nat, cibCount: nat, ip: set<nat>)
    requires 0 < k <= |addrs|
    ensures CibsOk(m, addrs, k, f, start, cibCount, ip) <==>
            && CibsOk(m, addrs, k - 1, f, start, cibCount, ip)
            && CibOk(m, addrs[k - 1], f + (k - 1), start + BlocksOf(ChunksOf(m, addrs, k - 1)), cibCount, ip + UsesOf(m, addrs, k - 1))
  {
    hide CibOk, BlocksOf, ChunksOf, UsesOf;
    assert CibAtOk(m, addrs, k - 1, f, start, cibCount, ip) <==>
        CibOk(m, addrs[k - 1], f + (k - 1), start + BlocksOf(ChunksOf(m, addrs, k - 1)), cibCount, ip + UsesOf(m, addrs, k - 1));
  }

  lemma RightSplit(m: Image, i: Info, a: nat, b: nat, c: nat)
    requires Counted(i) && a <= b <= c
    ensures AllRight(m, i, a, c) <==> AllRight(m, i, a, b) && AllRight(m, i, b, c)
  {
    hide FreeRight, ChunkAt;
  }

  // ----- Cabs

  /** The walk has got past j of the cabs. */
  ghost predicate MidCabs(m: Image, i: Info, ip: set<nat>, j: nat, start: nat, free: int)
  {
    && MadeBy(m, i) && start == StartOf(i, 63882 * j) && PoolAt(i, ip, 63882 * j, 507 * j, j)
    && AllRight(m, i, 0, 63882 * j) && free == FreeBefore(i, 63882 * j)
  }

  lemma MadeCab(m: Image, i: Info, ip: set<nat>, bno: nat, index: nat, start: nat, d: Device, free: int)
    requires MidCabs(m, i, ip, index, start, free) && index < i.cabCount && d.cibs == i.cibCount && d.cabs == i.cabCount
    requires bno == i.FirstCab() + index
    ensures Counted(i) && 507 * index < i.cibCount && CabHeader(m, bno, index, d, ip) && m.disk[bno].xid == 1
    ensures MidCibs(m, i, ip + {bno}, 507 * index, 0, start, index + 1, free)
    ensures CibAddresses(i, CabAddrs(m, bno), 507 * index) && |CabAddrs(m, bno)| == Min(507, i.cibCount - 507 * index)
  {
    hide CibsDone, StartOf, FreeBefore, FreeRight, ChunkAt, BitsAt, UsedInChunk;
    assert CabDone(i, m.disk, index);
    assert 126 * (507 * index) == 63882 * index;
  }

  /** A cab of mkapfs is accepted if and only if all its free counts are right. */
  lemma MadeCabOk(m: Image, i: Info, ip: set<nat>, bno: nat, index: nat, start: nat, d: Device, free: int)
    requires MidCabs(m, i, ip, index, start, free) && index < i.cabCount && d.cibs == i.cibCount && d.cabs == i.cabCount
    requires bno == i.FirstCab() + index
    ensures Counted(i) && (CabOk(m, bno, index, start, d, ip) <==> AllRight(m, i, 63882 * index, 63882 * index + 63882))
    ensures CabOk(m, bno, index, start, d, ip) ==>
              var cibs := CabAddrs(m, bno);
              var chunks := ChunksOf(m, cibs, |cibs|);
              && MidCabs(m, i, ip + {bno} + UsesOf(m, cibs, |cibs|), index + 1, start + BlocksOf(chunks), free + TotalFree(chunks))
              && |cibs| == Min(507, i.cibCount - 507 * index)
  {
    hide MadeBy, PoolAt, FreeRight, StartOf, FreeBefore, BlocksOf, TotalFree, ChunksOf, UsesOf, CibsOk, AllRight, CabHeader, MidCibs, CibAddresses, CibXid, Counted;
    MadeCab(m, i, ip, bno, index, start, d, free);
    var cibs := CabAddrs(m, bno);
    var n := |cibs|;
    MadeCibs(m, i, ip + {bno}, cibs, 507 * index, n, start, index + 1, free);
    CabRange(m, i, index, n);
    if CibsOk(m, cibs, n, 507 * index, start, i.cibCount, ip + {bno}) {
      assert CibXid(m, cibs[0]) == 1;
      CabDoneHere(m, i, ip + {bno} + UsesOf(m, cibs, n), index, n, start + BlocksOf(ChunksOf(m, cibs, n)), free + TotalFree(ChunksOf(m, cibs, n)));
    }
  }

  lemma CabRange(m: Image, i: Info, index: nat, n: nat)
    requires Counted(i) && 507 * index < i.cibCount && n == Min(507, i.cibCount - 507 * index)
    ensures AllRight(m, i, 126 * (507 * index), 126 * (507 * index + n)) <==> AllRight(m, i, 63882 * index, 63882 * index + 63882)
  {
    hide FreeRight, ChunkAt;
  }

  lemma CabDoneHere(m: Image, i: Info, ip: set<nat>, index: nat, n: nat, start: nat, free: int)
    requires Counted(i) && 507 * index < i.cibCount && n == Min(507, i.cibCount - 507 * index) && AllRight(m, i, 0, 63882 * index)
    requires MidCibs(m, i, ip, 507 * index, n, start, index + 1, free)
    ensures MidCabs(m, i, ip, index + 1, start, free)
  {
    hide CibAt, FreeRight, UsedInChunk, CibsDone, CabsDone, TotalUsed, BitsAt, AllRight;
    UsedNoMore(i, 126 * (507 * index + n), 63882 * (index + 1));
    CabRange(m, i, index, n);
    RightSplit(m, i, 0, 63882 * index, 63882 * (index + 1));
  }

  lemma {:induction false} MadeCabs(m: Image, i: Info, d: Device, j: nat)
    requires MadeBy(m, i) && Written(i, d, m.disk) && i.cabCount > 0 && j <= i.cabCount
    ensures |d.addrs| == i.cabCount && (CabsOk(m, d, j) <==> AllRight(m, i, 0, 63882 * j))
    ensures CabsOk(m, d, j) ==>
              var chunks := CabChunks(m, d.addrs, j);
              MidCabs(m, i, CabUses(m, d.addrs, j), j, BlocksOf(chunks), TotalFree(chunks)) && CabCibs(m, d.addrs, j) == Min(507 * j, i.cibCount)
  {
    hide MadeBy, PoolAt, FreeRight, StartOf, FreeBefore, BlocksOf, TotalFree, ChunksOf, UsesOf, CabOk, AllRight, CabChunks, CabUses, CabCibs, CabAddrs, CibsDone, CabsDone;
    if j == 0 {
      NoCabsListed(m, d.addrs);
      AtStart(m, i);
    } else {
      MadeCabs(m, i, d, j - 1);
      MoreCabs(m, d, j);
      RightSplit(m, i, 0, 63882 * (j - 1), 63882 * j);
      if CabsOk(m, d, j - 1) {
        var chunks := CabChunks(m, d.addrs, j - 1);
        MadeCabOk(m, i, CabUses(m, d.addrs, j - 1), d.addrs[j - 1], j - 1, BlocksOf(chunks), d, TotalFree(chunks));
        assert 63882 * (j - 1) + 63882 == 63882 * j;
        OneCab(m, d.addrs, j - 1);
      }
    }
  }

  lemma MoreCabs(m: Image, d: Device, j: nat)
    requires 0 < j <= |d.addrs|
    ensures CabsOk(m, d, j) <==>
            CabsOk(m, d, j - 1) && CabOk(m, d.addrs[j - 1], j - 1, BlocksOf(CabChunks(m, d.addrs, j - 1)), d, CabUses(m, d.addrs, j - 1))
  {
    hide CabOk, BlocksOf, CabChunks, CabUses;
    assert CabAtOk(m, d, j - 1) <==>
        CabOk(m, d.addrs[j - 1], j - 1, BlocksOf(CabChunks(m, d.addrs, j - 1)), d, CabUses(m, d.addrs, j - 1));
  }

  // ----- The device

  lemma AtStart(m: Image, i: Info)
    requires MadeBy(m, i)
    ensures MidCabs(m, i, {}, 0, BlocksOf([]), TotalFree([])) && MidCibs(m, i, {}, 0, 0, BlocksOf([]), 0, TotalFree([]))
  {
    hide CibsDone, CabsDone;
  }

  lemma MadeSizes(m: Image, i: Info, d: Device)
    requires MadeBy(m, i) && Written(i, d, m.disk)
    ensures Sizes(m, d) && d.cibs == i.cibCount && d.cabs == i.cabCount && d.blocks == i.blockCount && d.chunks == i.chunkCount
    ensures d.free == i.blockCount - TotalUsed(i, i.UsedChunksEnd())
    ensures i.cabCount == 0 ==> |d.addrs| == i.cibCount && CibAddresses(i, d.addrs, 0)
    ensures i.chunkCount <= 126 * i.cibCount && (i.cabCount > 0 ==> i.cibCount <= 507 * i.cabCount)
  {
    hide CibsDone, CabsDone, TotalUsed, UsedInChunk, BitsAt;
  }

  /** The numbers of chunks in the cibs and cabs of mkapfs. */
  lemma {:induction false} CibCount(m: Image, i: Info, addrs: seq<nat>, f: nat, k: nat)
    requires MadeBy(m, i) && CibAddresses(i, addrs, f) && k <= |addrs|
    ensures |ChunksOf(m, addrs, k)| == Min(126 * (f + k), i.chunkCount) - Min(126 * f, i.chunkCount)
  {
    hide CibAt, CabsDone, BitsAt;
    if k > 0 {
      CibCount(m, i, addrs, f, k - 1);
      assert CibDone(i, m.disk, f + (k - 1));
      CibSize(i, f + (k - 1));
    }
  }

  lemma {:induction false} CabCount(m: Image, i: Info, d: Device, j: nat)
    requires MadeBy(m, i) && Written(i, d, m.disk) && i.cabCount > 0 && j <= i.cabCount
    ensures |d.addrs| == i.cabCount && |CabChunks(m, d.addrs, j)| == Min(63882 * j, i.chunkCount)
  {
    hide CibsDone, BitsAt, ChunksOf, CibAt, TotalUsed, UsedInChunk, MadeBy;
    MadeCounted(m, i);
    if j > 0 {
      CabCount(m, i, d, j - 1);
      assert CabDone(i, m.disk, j - 1);
      var cibs := CabAddrs(m, d.addrs[j - 1]);
      assert CibAddresses(i, cibs, 507 * (j - 1));
      CibCount(m, i, cibs, 507 * (j - 1), |cibs|);
    }
  }

  /** What mkapfs made is accepted if and only if all recorded free counts are right. */
  lemma MadeDeviceOk(m: Image, i: Info, d: Device)
    requires MadeBy(m, i) && Written(i, d, m.disk)
    ensures DeviceOk(m, d) <==> AllRight(m, i, 0, i.chunkCount)
    ensures DeviceOk(m, d) ==> PoolUse(i, DeviceUses(m, d))
  {
    hide MadeBy, Written, CibsOk, CabsOk, AllRight, Totals, Sizes, ChunksOf, CabChunks, CabCibs, PoolUse, UsesOf, CabUses;
    MadeSizes(m, i, d);
    if i.cabCount == 0 {
      MadeCibList(m, i, d);
    } else {
      MadeCabList(m, i, d);
    }
  }

  /** The walk has marked the first blocks of the pool, as many as there are bitmaps,
      cibs and cabs, and no others. */
  ghost predicate PoolUse(i: Info, ip: set<nat>)
  {
    forall x: nat :: x in ip <==> i.ipBase <= x < i.ipBase + i.UsedChunksEnd() + i.cibCount + i.cabCount
  }

  lemma WholePool(m: Image, i: Info, ip: set<nat>, chunks: nat, cibs: nat, cabs: nat)
    requires MadeBy(m, i) && chunks >= i.chunkCount && cibs >= i.cibCount && cabs == i.cabCount
    ensures PoolAt(i, ip, chunks, cibs, cabs) ==> PoolUse(i, ip)
  {
    hide CibsDone, CabsDone, BitsAt, Made, Counted;
  }

  lemma MadeCibList(m: Image, i: Info, d: Device)
    requires MadeBy(m, i) && Written(i, d, m.disk) && i.cabCount == 0
    ensures d.cibs == |d.addrs| && (CibsOk(m, d.addrs, d.cibs, 0, 0, d.cibs, {}) <==> AllRight(m, i, 0, i.chunkCount))
    ensures CibsOk(m, d.addrs, d.cibs, 0, 0, d.cibs, {}) ==> Totals(d, ChunksOf(m, d.addrs, d.cibs)) && PoolUse(i, UsesOf(m, d.addrs, d.cibs))
  {
    hide MadeBy, Written, CibsOk, AllRight, ChunksOf, CibAddresses, PoolAt, StartOf, FreeBefore, BlocksOf, TotalFree, TotalUsed, UsesOf, Sizes;
    MadeSizes(m, i, d);
    WholeDevice(m, i);
    AtStart(m, i);
    EmptySums();
    MadeCibs(m, i, {}, d.addrs, 0, i.cibCount, 0, 0, 0);
    CibCount(m, i, d.addrs, 0, i.cibCount);
    WholePool(m, i, UsesOf(m, d.addrs, d.cibs), 126 * i.cibCount, i.cibCount, 0);
    assert {} + UsesOf(m, d.addrs, d.cibs) == UsesOf(m, d.addrs, d.cibs);
  }

  lemma MadeCabList(m: Image, i: Info, d: Device)
    requires MadeBy(m, i) && Written(i, d, m.disk) && i.cabCount > 0
    ensures d.cabs == |d.addrs| && (CabsOk(m, d, d.cabs) <==> AllRight(m, i, 0, i.chunkCount))
    ensures CabsOk(m, d, d.cabs) ==> CabCibs(m, d.addrs, d.cabs) == d.cibs && Totals(d, CabChunks(m, d.addrs, d.cabs))
    ensures CabsOk(m, d, d.cabs) ==> PoolUse(i, CabUses(m, d.addrs, d.cabs))
  {
    hide MadeBy, Written, CabsOk, AllRight, CabChunks, CabCibs, CabUses, PoolAt, StartOf, FreeBefore, BlocksOf, TotalFree, TotalUsed, Sizes;
    MadeSizes(m, i, d);
    WholeDevice(m, i);
    MadeCabs(m, i, d, i.cabCount);
    CabCount(m, i, d, i.cabCount);
    WholePool(m, i, CabUses(m, d.addrs, d.cabs), 63882 * i.cabCount, 507 * i.cabCount, i.cabCount);
  }

  lemma {:induction false} UsedNoMore(i: Info, a: nat, b: nat)
    requires a <= b && (a < b ==> a >= i.UsedChunksEnd())
    ensures TotalUsed(i, a) == TotalUsed(i, b)
    decreases b - a
  {
    if a < b {
      UsedNoMore(i, a, b - 1);
    }
  }

  /** A right free count is the number of blocks less those that were counted. */
  lemma RightFree(m: Image, i: Info, k: nat)
    requires MadeBy(m, i) && k < i.chunkCount
    ensures FreeRight(m, ChunkAt(i, k)) <==> k >= i.UsedChunksEnd() || Right(i, k)
    ensures FreeRight(m, ChunkAt(i, k)) ==> ChunkAt(i, k).free == ChunkAt(i, k).blocks - UsedInChunk(i, k)
  {
    hide MadeBy, CountUsed, UsedInChunk, Made, Counted;
    MadeCounted(m, i);
    RecordedBits(m, i, k);
    UsedOnDevice(i, k);
    UsedRange(i, k);
  }

  lemma UsedRange(i: Info, k: nat)
    ensures 0 <= UsedInChunk(i, k) < 0x1_0000_0000 && (k >= i.UsedChunksEnd() ==> UsedInChunk(i, k) == 0)
  {
    hide FirstChunkPool, CpointEnd;
  }

  /** The bitmap of a chunk, if it has one, is the one of the layout. */
  lemma RecordedBits(m: Image, i: Info, k: nat)
    requires MadeBy(m, i) && k < i.chunkCount
    ensures Made(i) && i.UsedBlocksEnd() <= i.blockCount && 32768 * k < i.blockCount
    ensures var c := ChunkAt(i, k);
            if k < i.UsedChunksEnd() then c.bitmap != 0 && m.bits(c.bitmap) == CountUsed(i, 32768 * k, 32768 * k + 32768)
            else c.bitmap == 0
  {
    hide CibsDone, CabsDone, CountUsed, UsedInChunk, Made;
    if k < i.UsedChunksEnd() {
      assert BitsAt(m, i, k);
    }
  }

  lemma UsedOnDevice(i: Info, k: nat)
    requires Made(i) && i.UsedBlocksEnd() <= i.blockCount && 32768 * k < i.blockCount
    ensures CountUsed(i, 32768 * k, 32768 * k + 32768) <= Min(32768, i.blockCount - 32768 * k)
  {
    hide CpointEnd, CountUsed;
    if i.blockCount < 32768 * k + 32768 {
      CountSplit(i, 32768 * k, i.blockCount, 32768 * k + 32768);
      CountNone(i, i.blockCount, 32768 * k + 32768);
    }
  }

  /** All recorded free counts are right exactly when the layout's counts fit. */
  lemma RightIffFit(m: Image, i: Info)
    requires MadeBy(m, i)
    ensures AllRight(m, i, 0, i.chunkCount) <==> CountsFit(i)
  {
    hide FreeRight, ChunkAt, Right, CountsFit;
    RecordedCounts(i);
    forall k: nat | k < i.chunkCount
      ensures FreeRight(m, ChunkAt(i, k)) <==> k >= i.UsedChunksEnd() || Right(i, k)
    {
      RightFree(m, i, k);
    }
    if AllRight(m, i, 0, i.chunkCount) {
      forall k: nat | k < i.UsedChunksEnd()
        ensures Right(i, k)
      {
        assert FreeRight(m, ChunkAt(i, k));
      }
    }
  }

  /** Formatting a device of any size and then checking its space manager: mkapfs
      gives up when SetInfo() does, and otherwise the checker accepts the device, and
      the bitmap of the internal pool, exactly when CountsFit() holds. */
  method FormatAndCheck(n: nat) returns (made: bool, ok: bool)
    requires n >= 128
    ensures made == SetInfo(n).Some?
    ensures made ==> (ok <==> CountsFit(SetInfo(n).value))
  {
    hide CountsFit, Written, CibsDone, CabsDone, CountUsed, Tiled, TotalFree, InUse, Ones, DeviceOk, AllRight, MadeBy, BlocksOf, DeviceUses;
    var info := SetInfo(n);
    made, ok := info.Some?, false;
    if !made {
      return;
    }
    var i := info.value;
    LayoutFits(n);
    PoolFits(n);
    var writer := new Writer(i);
    var d := writer.MakeDevice();
    var bitmap := MakeMainBitmap(i);
    var pool := MakeIpBitmap(i);
    var bitmaps := bitmap[..];
    var bits: nat -> nat := (b: nat) => BlockOnes(bitmaps, i.ipBase, b);
    var m := Image(writer.disk, bits, 1, n, n, i.ipBase, i.ipBlocks);
    MadeHere(m, i, d, bitmaps);
    var checker := new DeviceChecker(m);
    ok := checker.ParseDevice(d);
    MadeDeviceOk(m, i, d);
    RightIffFit(m, i);
    ok := ok && forall b: nat | b < pool.Length :: pool[b] == (i.ipBase + b in checker.ip);
  }

  function Ones(bits: seq<bool>, a: nat, b: nat): (r: nat)
    requires b <= |bits|
    decreases b - a
  {
    if a >= b then 0 else (if bits[a] then 1 else 0) + Ones(bits, a + 1, b)
  }

  /** The ones in a bitmap block, the first of which is at the start of the pool. */
  function BlockOnes(bits: seq<bool>, first: nat, b: nat): (r: nat)
  {
    if first <= b && 32768 * (b - first) + 32768 <= |bits| then Ones(bits, 32768 * (b - first), 32768 * (b - first) + 32768) else 0
  }

  lemma {:induction false} OnesAreUsed(i: Info, bits: seq<bool>, a: nat, b: nat)
    requires b <= |bits| && forall k: nat | k < |bits| :: bits[k] == InUse(i, k)
    ensures Ones(bits, a, b) == CountUsed(i, a, b)
    decreases b - a
  {
    hide InUse;
    if a < b {
      OnesAreUsed(i, bits, a + 1, b);
    }
  }

  lemma MadeHere(m: Image, i: Info, d: Device, bits: seq<bool>)
    requires Counted(i) && Made(i) && Written(i, d, m.disk) && i.UsedBlocksEnd() <= i.blockCount && i.UsedChunksEnd() <= i.chunkCount
    requires i.FirstCab() + i.cabCount <= i.ipBase + i.ipBlocks
    requires m.ipBase == i.ipBase && m.ipBlocks == i.ipBlocks && m.containerBlocks == m.maxBlocks == i.blockCount && m.smXid == 1
    requires |bits| == 32768 * i.UsedChunksEnd() && forall b: nat | b < |bits| :: bits[b] == InUse(i, b)
    requires forall b: nat :: m.bits(b) == BlockOnes(bits, i.ipBase, b)
    ensures MadeBy(m, i)
  {
    hide CibsDone, CabsDone, CountUsed, Ones, InUse;
    assert i.cabCount == 0 ==> CabsDone(i, m.disk, 0) by { NoCabs(i, m.disk); }
    forall k: nat | k < i.UsedChunksEnd()
      ensures BitsAt(m, i, k)
    {
      assert m.bits(i.ipBase + k) == BlockOnes(bits, i.ipBase, i.ipBase + k);
      OnesAreUsed(i, bits, 32768 * k, 32768 * k + 32768);
    }
  }

  lemma NoCabs(i: Info, disk: map<nat, Block>)
    requires Counted(i)
    ensures CabsDone(i, disk, 0)
  {
  }
}
