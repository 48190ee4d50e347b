/** The walk of a device's chunks by the checker (apfsck/spaceman.c:218-365,
    448-519): exactly what it accepts, and what follows for any device. */
module SpacemanChecker {
  import opened Prelude
  import opened SpacemanLayout
  import opened SpacemanWriter

  /** Everything on the disk that the walk looks at, `bits` being the number of
      ones in a bitmap block. */
  datatype Image = Image(
    disk: map<nat, Block>, bits: nat -> nat, smXid: nat,
    containerBlocks: nat, maxBlocks: nat, ipBase: nat, ipBlocks: nat)

  predicate InPool(m: Image, b: nat)
  {
    m.ipBase <= b < m.ipBase + m.ipBlocks
  }

  /** The free count of a chunk is that of its bitmap; no bitmap is an empty one. */
  predicate FreeRight(m: Image, c: Chunk)
  {
    c.free == (c.blocks - if c.bitmap == 0 then 0 else m.bits(c.bitmap)) % 0x1_0000_0000
  }

  /** The count has 32 bits: with that of the ones it makes the number of blocks, or
      wraps around when there are more ones than blocks. */
  lemma FreeIs(m: Image, c: Chunk)
    requires 0 <= c.free <= 0xFFFF_FFFF && c.blocks <= 32768 && (c.bitmap != 0 ==> m.bits(c.bitmap) <= 32768)
    ensures var used := if c.bitmap == 0 then 0 else m.bits(c.bitmap);
            FreeRight(m, c) <==> c.free + used == c.blocks || c.free + used == c.blocks + 0xFFFF_FFFF + 1
  {
  }

  predicate ChunkOk(m: Image, c: Chunk, isLast: bool, start: nat, ip: set<nat>)
  {
    && 0 < c.blocks <= 32768 && (isLast || c.blocks == 32768)
    && c.addr == start && start % 32768 == 0 && start < m.containerBlocks
    && (c.bitmap == 0 || (InPool(m, c.bitmap) && c.bitmap !in ip))
    && FreeRight(m, c) && c.xid != 0
  }

  // ----- What acceptance means

  ghost predicate TiledAt(m: Image, list: seq<Chunk>, k: nat)
    requires k < |list|
  {
    && list[k].addr == 32768 * k && 0 < list[k].blocks <= 32768
    && (k < |list| - 1 ==> list[k].blocks == 32768) && FreeRight(m, list[k])
  }

  /** The chunks cover the blocks before `end` one after the other, each of them
      full except maybe the last. */
  ghost predicate Tiled(m: Image, list: seq<Chunk>, end: nat)
  {
    && (forall k: nat | k < |list| :: TiledAt(m, list, k))
    && end == if list == [] then 0 else 32768 * (|list| - 1) + list[|list| - 1].blocks
  }

  function TotalFree(list: seq<Chunk>): (r: int)
  {
    if list == [] then 0 else TotalFree(list[..|list| - 1]) + list[|list| - 1].free
  }

  /** Each block below the end is in exactly one chunk. */
  lemma TiledOnce(m: Image, list: seq<Chunk>, end: nat, b: nat, k: nat)
    requires Tiled(m, list, end) && k < |list|
    ensures list[k].addr <= b < list[k].addr + list[k].blocks <==> b < end && k == b / 32768
  {
    assert TiledAt(m, list, k);
  }

  lemma TiledMore(m: Image, list: seq<Chunk>, start: nat, c: Chunk, isLast: bool, ip: set<nat>)
    requires Tiled(m, list, start) && ChunkOk(m, c, isLast, start, ip)
    ensures Tiled(m, list + [c], start + c.blocks) && TotalFree(list + [c]) == TotalFree(list) + c.free
  {
    hide FreeRight;
    var longer := list + [c];
    assert longer[..|list|] == list;
    if list != [] {
      assert TiledAt(m, list, |list| - 1);
      assert start == 32768 * |list|;
    }
    forall k: nat | k < |longer|
      ensures TiledAt(m, longer, k)
    {
      if k < |list| {
        assert TiledAt(m, list, k);
      }
    }
  }

  // ----- Exactly what is accepted

  function BlocksOf(list: seq<Chunk>): (n: nat)
  {
    if list == [] then 0 else BlocksOf(list[..|list| - 1]) + list[|list| - 1].blocks
  }

  /** The bitmap blocks of some chunks. */
  function Bitmaps(list: seq<Chunk>): (s: set<nat>)
  {
    set k: nat | k < |list| && list[k].bitmap != 0 :: list[k].bitmap
  }

  /** A chunk starts where those before it end, and its bitmap is not one of
      theirs. */
  ghost predicate ChunkAtOk(m: Image, chunks: seq<Chunk>, k: nat, last: bool, start: nat, ip: set<nat>)
    requires k < |chunks|
  {
    ChunkOk(m, chunks[k], last && k == |chunks| - 1, start + BlocksOf(chunks[..k]), ip + Bitmaps(chunks[..k]))
  }

  ghost predicate ChunksOk(m: Image, chunks: seq<Chunk>, n: nat, last: bool, start: nat, ip: set<nat>)
    requires n <= |chunks|
  {
    forall k: nat | k < n :: ChunkAtOk(m, chunks, k, last, start, ip)
  }

  /** The header of a chunk-info block, and its place in the pool. */
  predicate CibHeader(m: Image, bno: nat, index: nat, cibCount: nat, ip: set<nat>)
  {
    && bno in m.disk && m.disk[bno].Cib? && InPool(m, bno) && bno !in ip
    && var cib := m.disk[bno];
       && cib.xid <= m.smXid && cib.index == index
       && 0 < |cib.chunks| <= 126 && (index + 1 != cibCount ==> |cib.chunks| == 126)
  }

  /** A chunk-info block whose chunks are good, and which is as recent as the most
      recent one of them. */
  ghost predicate CibOk(m: Image, bno: nat, index: nat, start: nat, cibCount: nat, ip: set<nat>)
  {
    && CibHeader(m, bno, index, cibCount, ip)
    && var cib := m.disk[bno];
       && ChunksOk(m, cib.chunks, |cib.chunks|, index + 1 == cibCount, start, ip + {bno})
       && (forall k: nat | k < |cib.chunks| :: cib.chunks[k].xid <= cib.xid)
       && (exists k: nat :: k < |cib.chunks| && cib.chunks[k].xid == cib.xid)
  }

  function CibChunks(m: Image, bno: nat): (s: seq<Chunk>)
  {
    if bno in m.disk && m.disk[bno].Cib? then m.disk[bno].chunks else []
  }

  function CibXid(m: Image, bno: nat): (xid: nat)
  {
    if bno in m.disk then m.disk[bno].xid else 0
  }

  /** The chunks of the first k blocks of a list, and all the blocks of the pool
      that they take. */
  function ChunksOf(m: Image, addrs: seq<nat>, k: nat): (s: seq<Chunk>)
    requires k <= |addrs|
  {
    if k == 0 then [] else ChunksOf(m, addrs, k - 1) + CibChunks(m, addrs[k - 1])
  }

  function UsesOf(m: Image, addrs: seq<nat>, k: nat): (s: set<nat>)
    requires k <= |addrs|
  {
    if k == 0 then {} else UsesOf(m, addrs, k - 1) + {addrs[k - 1]} + Bitmaps(CibChunks(m, addrs[k - 1]))
  }

  ghost predicate CibAtOk(m: Image, addrs: seq<nat>, k: nat, first: nat, start: nat, cibCount: nat, ip: set<nat>)
    requires k < |addrs|
  {
    CibOk(m, addrs[k], first + k, start + BlocksOf(ChunksOf(m, addrs, k)), cibCount, ip + UsesOf(m, addrs, k))
  }

  ghost predicate CibsOk(m: Image, addrs: seq<nat>, n: nat, first: nat, start: nat, cibCount: nat, ip: set<nat>)
    requires n <= |addrs|
  {
    forall k: nat | k < n :: CibAtOk(m, addrs, k, first, start, cibCount, ip)
  }

  predicate CabHeader(m: Image, bno: nat, index: nat, d: Device, ip: set<nat>)
  {
    && bno in m.disk && m.disk[bno].Cab? && InPool(m, bno) && bno !in ip
    && var cab := m.disk[bno];
       && cab.xid <= m.smXid && cab.index == index
       && 0 < |cab.addrs| <= 507 && (index + 1 != d.cabs ==> |cab.addrs| == 507)
  }

  ghost predicate CabOk(m: Image, bno: nat, index: nat, start: nat, d: Device, ip: set<nat>)
  {
    && CabHeader(m, bno, index, d, ip)
    && var cab := m.disk[bno];
       && CibsOk(m, cab.addrs, |cab.addrs|, 507 * index, start, d.cibs, ip + {bno})
       && (forall k: nat | k < |cab.addrs| :: CibXid(m, cab.addrs[k]) <= cab.xid)
       && (exists k: nat :: k < |cab.addrs| && CibXid(m, cab.addrs[k]) == cab.xid)
  }

  function CabAddrs(m: Image, bno: nat): (s: seq<nat>)
  {
    if bno in m.disk && m.disk[bno].Cab? then m.disk[bno].addrs else []
  }

  /** The same for the first k address blocks of a device. */
  function CabChunks(m: Image, addrs: seq<nat>, k: nat): (s: seq<Chunk>)
    requires k <= |addrs|
  {
    if k == 0 then []
    else
      var cibs := CabAddrs(m, addrs[k - 1]);
      CabChunks(m, addrs, k - 1) + ChunksOf(m, cibs, |cibs|)
  }

  function CabUses(m: Image, addrs: seq<nat>, k: nat): (s: set<nat>)
    requires k <= |addrs|
  {
    if k == 0 then {}
    else
      var cibs := CabAddrs(m, addrs[k - 1]);
      CabUses(m, addrs, k - 1) + {addrs[k - 1]} + UsesOf(m, cibs, |cibs|)
  }

  function CabCibs(m: Image, addrs: seq<nat>, k: nat): (n: nat)
    requires k <= |addrs|
  {
    if k == 0 then 0 else CabCibs(m, addrs, k - 1) + |CabAddrs(m, addrs[k - 1])|
  }

  ghost predicate CabAtOk(m: Image, d: Device, j: nat)
    requires j < |d.addrs|
  {
    CabOk(m, d.addrs[j], j, BlocksOf(CabChunks(m, d.addrs, j)), d, CabUses(m, d.addrs, j))
  }

  ghost predicate CabsOk(m: Image, d: Device, n: nat)
    requires n <= |d.addrs|
  {
    forall j: nat | j < n :: CabAtOk(m, d, j)
  }

  /** The numbers of a device structure that only depend on its size. */
  predicate Sizes(m: Image, d: Device)
  {
    && d.blocks <= m.maxBlocks && d.chunks == (d.blocks + 32767) / 32768 && d.cibs == (d.chunks + 125) / 126
    && var cabs := (d.cibs + 506) / 507; d.cabs == if cabs == 1 then 0 else cabs
  }

  predicate Totals(d: Device, list: seq<Chunk>)
  {
    |list| == d.chunks && BlocksOf(list) == d.blocks && TotalFree(list) == d.free
  }

  /** All that is asked of a device. */
  ghost predicate DeviceOk(m: Image, d: Device)
  {
    && Sizes(m, d)
    && if d.cabs == 0 then
         d.cibs <= |d.addrs| && CibsOk(m, d.addrs, d.cibs, 0, 0, d.cibs, {}) && Totals(d, ChunksOf(m, d.addrs, d.cibs))
       else
         && d.cabs <= |d.addrs| && CabsOk(m, d, d.cabs)
         && CabCibs(m, d.addrs, d.cabs) == d.cibs && Totals(d, CabChunks(m, d.addrs, d.cabs))
  }

  /** The blocks of the pool that a device takes. */
  function DeviceUses(m: Image, d: Device): (s: set<nat>)
    requires Sizes(m, d) && if d.cabs == 0 then d.cibs <= |d.addrs| else d.cabs <= |d.addrs|
  {
    if d.cabs == 0 then UsesOf(m, d.addrs, d.cibs) else CabUses(m, d.addrs, d.cabs)
  }

  lemma {:induction false} SumsJoin(a: seq<Chunk>, b: seq<Chunk>)
    ensures BlocksOf(a + b) == BlocksOf(a) + BlocksOf(b) && TotalFree(a + b) == TotalFree(a) + TotalFree(b)
    decreases |b|
  {
    if b == [] {
      assert a + b == a;
    } else {
      var n := |b| - 1;
      assert (a + b)[..|a + b| - 1] == a + b[..n];
      SumsJoin(a, b[..n]);
    }
  }

  lemma OneChunk(list: seq<Chunk>, k: nat)
    requires k < |list|
    ensures BlocksOf(list[..k + 1]) == BlocksOf(list[..k]) + list[k].blocks && TotalFree(list[..k + 1]) == TotalFree(list[..k]) + list[k].free
    ensures Bitmaps(list[..k + 1]) == Bitmaps(list[..k]) + if list[k].bitmap == 0 then {} else {list[k].bitmap}
  {
    var longer, shorter := list[..k + 1], list[..k];
    assert longer[..|longer| - 1] == shorter;
    forall x | x in Bitmaps(longer)
      ensures x in Bitmaps(shorter) || (list[k].bitmap != 0 && x == list[k].bitmap)
    {
      var j: nat :| j < |longer| && longer[j].bitmap != 0 && longer[j].bitmap == x;
      assert j < k ==> shorter[j].bitmap == x;
    }
    forall x | x in Bitmaps(shorter)
      ensures x in Bitmaps(longer)
    {
      var j: nat :| j < |shorter| && shorter[j].bitmap != 0 && shorter[j].bitmap == x;
      assert longer[j].bitmap == x;
    }
    assert list[k].bitmap != 0 ==> longer[k].bitmap in Bitmaps(longer);
  }

  lemma EmptySums()
    ensures BlocksOf([]) == 0 && TotalFree([]) == 0 && Bitmaps([]) == {}
  {
  }

  /** The largest of what was seen is the one that is asked for. */
  ghost predicate Largest(xids: seq<nat>, max: nat)
  {
    (forall k: nat | k < |xids| :: xids[k] <= max) && if xids == [] then max == 0 else exists k: nat :: k < |xids| && xids[k] == max
  }

  lemma LargerStill(xids: seq<nat>, max: nat, x: nat)
    requires Largest(xids, max)
    ensures Largest(xids + [x], if x > max then x else max)
  {
    var longer := xids + [x];
    if x > max || xids == [] {
      assert longer[|xids|] == x;
    } else {
      var k: nat :| k < |xids| && xids[k] == max;
      assert longer[k] == max;
    }
  }

  function Xids(list: seq<Chunk>): (s: seq<nat>)
    ensures |s| == |list| && forall k: nat | k < |s| :: s[k] == list[k].xid
  {
    seq(|list|, k requires 0 <= k < |list| => list[k].xid)
  }

  function CibXids(m: Image, addrs: seq<nat>): (s: seq<nat>)
    ensures |s| == |addrs| && forall k: nat | k < |s| :: s[k] == CibXid(m, addrs[k])
  {
    seq(|addrs|, k requires 0 <= k < |addrs| => CibXid(m, addrs[k]))
  }

  class DeviceChecker {
    const m: Image
    var ip: set<nat>
    var smBlocks: nat
    var smChunks: nat
    var smCibs: nat
    var smFree: int
    ghost var list: seq<Chunk>

    ghost predicate Valid(start: nat)
      reads this`smBlocks, this`smFree, this`list
    {
      Tiled(m, list, start) && BlocksOf(list) == smBlocks == start && smFree == TotalFree(list)
    }

    constructor (image: Image)
      ensures m == image && ip == {} && PoolOnly() && Valid(0) && list == [] && smChunks == 0 && smCibs == 0
    {
      m, ip, list := image, {}, [];
      smBlocks, smChunks, smCibs, smFree := 0, 0, 0, 0;
    }

    /** Only blocks of the pool are marked. */
    ghost predicate PoolOnly()
      reads this`ip
    {
      forall x: nat | x in ip :: m.ipBase <= x && x - m.ipBase < m.ipBlocks
    }

    /** ip_bmap_mark_as_used(), for a single block. */
    method MarkPool(b: nat) returns (ok: bool)
      requires PoolOnly()
      modifies this`ip
      ensures ok ==> PoolOnly()
      ensures ok <==> InPool(m, b) && b !in old(ip)
      ensures ok ==> ip == old(ip) + {b}
    {
      if !InPool(m, b) || b in ip {
        return false;
      }
      ip := ip + {b};
      ok := true;
    }

    method ParseChunk(c: Chunk, isLast: bool, start: nat) returns (ok: bool, next: nat)
      requires Valid(start) && PoolOnly()
      modifies this`ip, this`smBlocks, this`smFree, this`list
      ensures ok <==> ChunkOk(m, c, isLast, start, old(ip))
      ensures ok ==> PoolOnly() && Valid(next) && next == start + c.blocks && list == old(list) + [c]
      ensures ok ==> ip == (if c.bitmap == 0 then old(ip) else old(ip) + {c.bitmap}) && smFree == old(smFree) + c.free
      ensures ok ==> |ip| - Bitmapped(list) == old(|ip| - Bitmapped(list))
    {
      hide Tiled, TotalFree, BlocksOf, Bitmapped, PoolOnly;
      next := start;
      if c.blocks == 0 || c.blocks > 32768 || (!isLast && c.blocks != 32768) {
        return false, next;
      }
      if c.addr != start || start % 32768 != 0 || start >= m.containerBlocks {
        return false, next;
      }
      ghost var ip0 := ip;
      if c.bitmap != 0 {
        var marked := MarkPool(c.bitmap);
        if !marked {
          return false, next;
        }
      }
      if !FreeRight(m, c) || c.xid == 0 {
        return false, next;
      }
      TiledMore(m, list, start, c, isLast, ip0);
      LastChunk(list, c);
      smBlocks := smBlocks + c.blocks;
      smFree := smFree + c.free;
      list := list + [c];
      next := start + c.blocks;
      ok := true;
    }

    /** The chunks of a block, none of which may be more recent than it. */
    method ParseChunks(chunks: seq<Chunk>, last: bool, start: nat, xid: nat) returns (ok: bool, next: nat, maxXid: nat)
      requires Valid(start) && PoolOnly()
      modifies this`ip, this`smBlocks, this`smFree, this`list
      ensures ok <==> ChunksOk(m, chunks, |chunks|, last, start, old(ip)) && forall k: nat | k < |chunks| :: chunks[k].xid <= xid
      ensures ok ==> PoolOnly() && Valid(next) && next == start + BlocksOf(chunks) && list == old(list) + chunks && ip == old(ip) + Bitmaps(chunks)
      ensures ok ==> Largest(Xids(chunks), maxXid)
      ensures ok ==> |ip| - Bitmapped(list) == old(|ip| - Bitmapped(list))
    {
      hide Tiled, TotalFree, BlocksOf, Bitmaps, ChunkOk, ChunksOk, Largest, Valid, Bitmapped, PoolOnly, Xids;
      next, maxXid := start, 0;
      NoChunksYet(m, chunks, last, start, ip);
      for k := 0 to |chunks|
        invariant PoolOnly() && Valid(next) && next == start + BlocksOf(chunks[..k])
        invariant list == old(list) + chunks[..k] && ip == old(ip) + Bitmaps(chunks[..k])
        invariant ChunksOk(m, chunks, k, last, start, old(ip)) && forall j: nat | j < k :: chunks[j].xid <= xid
        invariant Largest(Xids(chunks[..k]), maxXid)
        invariant |ip| - Bitmapped(list) == old(|ip| - Bitmapped(list))
      {
        var c := chunks[k];
        ChunkStep(m, chunks, k, last, start, old(ip), maxXid);
        ok, next := ParseChunk(c, last && k == |chunks| - 1, next);
        if !ok {
          return;
        }
        if c.xid > xid {
          return false, next, maxXid;
        }
        if c.xid > maxXid {
          maxXid := c.xid;
        }
      }
      assert chunks[..|chunks|] == chunks;
      ok := true;
    }

    /** parse_chunk_info_block() */
    method ParseCib(bno: nat, index: nat, start: nat, cibCount: nat) returns (ok: bool, next: nat, xid: nat)
      requires Valid(start) && PoolOnly() && smChunks == |list|
      modifies this`ip, this`smBlocks, this`smFree, this`list, this`smChunks
      ensures ok <==> CibOk(m, bno, index, start, cibCount, old(ip))
      ensures ok ==> PoolOnly() && Valid(next) && smChunks == |list| && list == old(list) + CibChunks(m, bno)
      ensures ok ==> next == start + BlocksOf(CibChunks(m, bno)) && ip == old(ip) + {bno} + Bitmaps(CibChunks(m, bno))
      ensures ok ==> xid == CibXid(m, bno)
      ensures ok ==> |ip| - Bitmapped(list) == old(|ip| - Bitmapped(list)) + 1
    {
      hide Tiled, TotalFree, BlocksOf, Bitmaps, ChunksOk, Largest, Valid, InPool, Bitmapped, PoolOnly;
      next, xid := start, 0;
      if bno !in m.disk || !m.disk[bno].Cib? {
        return false, next, xid;
      }
      var cib := m.disk[bno];
      var marked := MarkPool(bno);
      if !marked || cib.xid > m.smXid || cib.index != index {
        return false, next, xid;
      }
      var lastCib := index + 1 == cibCount;
      var count := |cib.chunks|;
      if count == 0 || count > 126 || (!lastCib && count != 126) {
        return false, next, xid;
      }
      smChunks := smChunks + count;
      var maxXid;
      ok, next, maxXid := ParseChunks(cib.chunks, lastCib, start, cib.xid);
      if !ok {
        return;
      }
      NewestIs(Xids(cib.chunks), maxXid, cib.xid);
      ok, xid := cib.xid == maxXid, cib.xid;
    }

    /** parse_cib_address_block() */
    method ParseCab(bno: nat, index: nat, start: nat, d: Device) returns (ok: bool, next: nat)
      requires Valid(start) && PoolOnly() && smChunks == |list|
      modifies this
      ensures ok <==> CabOk(m, bno, index, start, d, old(ip))
      ensures ok ==> PoolOnly() && Valid(next) && smChunks == |list| && smCibs == old(smCibs) + |CabAddrs(m, bno)|
      ensures ok ==> var cibs := CabAddrs(m, bno);
                     && list == old(list) + ChunksOf(m, cibs, |cibs|) && next == start + BlocksOf(ChunksOf(m, cibs, |cibs|))
                     && ip == old(ip) + {bno} + UsesOf(m, cibs, |cibs|)
                     && |ip| - Bitmapped(list) == old(|ip| - Bitmapped(list)) + 1 + |cibs|
    {
      hide Tiled, TotalFree, BlocksOf, Bitmaps, CibsOk, Largest, Valid, InPool, ChunksOf, UsesOf, Bitmapped, PoolOnly;
      next := start;
      if bno !in m.disk || !m.disk[bno].Cab? {
        return false, next;
      }
      var cab := m.disk[bno];
      var marked := MarkPool(bno);
      if !marked || cab.xid > m.smXid || cab.index != index {
        return false, next;
      }
      var count := |cab.addrs|;
      if count == 0 || count > 507 || (index + 1 != d.cabs && count != 507) {
        return false, next;
      }
      smCibs := smCibs + count;
      var maxXid;
      ok, next, maxXid := ParseCibs(cab.addrs, 507 * index, start, d.cibs, cab.xid);
      if !ok {
        return;
      }
      NewestIs(CibXids(m, cab.addrs), maxXid, cab.xid);
      ok := cab.xid == maxXid;
    }

    /** The blocks that an address block lists, none of which may be more recent
        than it. */
    method ParseCibs(addrs: seq<nat>, first: nat, start: nat, cibCount: nat, xid: nat) returns (ok: bool, next: nat, maxXid: nat)
      requires Valid(start) && PoolOnly() && smChunks == |list|
      modifies this`ip, this`smBlocks, this`smFree, this`list, this`smChunks
      ensures ok <==> CibsOk(m, addrs, |addrs|, first, start, cibCount, old(ip)) && forall k: nat | k < |addrs| :: CibXid(m, addrs[k]) <= xid
      ensures ok ==> PoolOnly() && Valid(next) && smChunks == |list| && list == old(list) + ChunksOf(m, addrs, |addrs|)
      ensures ok ==> next == start + BlocksOf(ChunksOf(m, addrs, |addrs|)) && ip == old(ip) + UsesOf(m, addrs, |addrs|)
      ensures ok ==> Largest(CibXids(m, addrs), maxXid)
      ensures ok ==> |ip| - Bitmapped(list) == old(|ip| - Bitmapped(list)) + |addrs|
    {
      hide Tiled, TotalFree, BlocksOf, Bitmaps, CibOk, Largest, Valid, ChunksOf, UsesOf, CibChunks, CibXid, Bitmapped, PoolOnly;
      next, maxXid := start, 0;
      NoCibsListed(m, addrs);
      NoXids();
      for k := 0 to |addrs|
        invariant PoolOnly() && Valid(next) && smChunks == |list| && next == start + BlocksOf(ChunksOf(m, addrs, k))
        invariant list == old(list) + ChunksOf(m, addrs, k) && ip == old(ip) + UsesOf(m, addrs, k)
        invariant CibsOk(m, addrs, k, first, start, cibCount, old(ip)) && forall j: nat | j < k :: CibXid(m, addrs[j]) <= xid
        invariant Largest(CibXids(m, addrs[..k]), maxXid)
        invariant |ip| - Bitmapped(list) == old(|ip| - Bitmapped(list)) + k
      {
        var cibXid;
        ok, next, cibXid := ParseCib(addrs[k], first + k, next, cibCount);
        if !ok {
          assert !CibAtOk(m, addrs, k, first, start, cibCount, old(ip));
          return;
        }
        if cibXid > xid {
          return false, next, maxXid;
        }
        OneCib(m, addrs, k);
        LargerStill(CibXids(m, addrs[..k]), maxXid, cibXid);
        assert CibXids(m, addrs[..k]) + [cibXid] == CibXids(m, addrs[..k + 1]);
        if cibXid > maxXid {
          maxXid := cibXid;
        }
      }
      assert addrs[..|addrs|] == addrs;
      ok := true;
    }

    /** The blocks that the device structure lists by itself. */
    method ParseCibList(d: Device) returns (ok: bool)
      requires PoolOnly() && Valid(0) && list == [] && smChunks == 0 && ip == {}
      modifies this
      ensures ok <==> d.cibs <= |d.addrs| && CibsOk(m, d.addrs, d.cibs, 0, 0, d.cibs, {})
      ensures ok ==> PoolOnly() && Valid(smBlocks) && smChunks == |list| && list == ChunksOf(m, d.addrs, d.cibs) && ip == UsesOf(m, d.addrs, d.cibs)
      ensures ok ==> |ip| == Bitmapped(list) + d.cibs
    {
      hide Tiled, TotalFree, BlocksOf, Bitmaps, CibOk, Valid, ChunksOf, UsesOf, CibChunks, Bitmapped, PoolOnly;
      var start: nat := 0;
      NoCibsListed(m, d.addrs);
      for j := 0 to d.cibs
        invariant PoolOnly() && j <= |d.addrs| && Valid(start) && smChunks == |list| && start == BlocksOf(ChunksOf(m, d.addrs, j))
        invariant list == ChunksOf(m, d.addrs, j) && ip == UsesOf(m, d.addrs, j)
        invariant CibsOk(m, d.addrs, j, 0, 0, d.cibs, {})
        invariant |ip| == Bitmapped(list) + j
      {
        if j >= |d.addrs| {
          return false;
        }
        var xid;
        assert {} + UsesOf(m, d.addrs, j) == ip;
        ok, start, xid := ParseCib(d.addrs[j], j, start, d.cibs);
        if !ok {
          assert !CibAtOk(m, d.addrs, j, 0, 0, d.cibs, {});
          return;
        }
        OneCib(m, d.addrs, j);
      }
      Ends(start);
      ok := true;
    }

    method ParseCabList(d: Device) returns (ok: bool)
      requires PoolOnly() && Valid(0) && list == [] && smChunks == 0 && smCibs == 0 && ip == {}
      modifies this
      ensures ok <==> d.cabs <= |d.addrs| && CabsOk(m, d, d.cabs)
      ensures ok ==> PoolOnly() && Valid(smBlocks) && smChunks == |list| && list == CabChunks(m, d.addrs, d.cabs) && smCibs == CabCibs(m, d.addrs, d.cabs)
      ensures ok ==> ip == CabUses(m, d.addrs, d.cabs)
      ensures ok ==> |ip| == Bitmapped(list) + smCibs + d.cabs
    {
      hide Tiled, TotalFree, BlocksOf, CabOk, Valid, ChunksOf, UsesOf, CabChunks, CabUses, CabCibs, CabAddrs, Bitmapped, PoolOnly;
      var start: nat := 0;
      NoCabsListed(m, d.addrs);
      for j := 0 to d.cabs
        invariant PoolOnly() && j <= |d.addrs| && Valid(start) && smChunks == |list| && start == BlocksOf(CabChunks(m, d.addrs, j))
        invariant list == CabChunks(m, d.addrs, j) && ip == CabUses(m, d.addrs, j) && smCibs == CabCibs(m, d.addrs, j)
        invariant CabsOk(m, d, j)
        invariant |ip| == Bitmapped(list) + smCibs + j
      {
        if j >= |d.addrs| {
          return false;
        }
        ok, start := ParseCab(d.addrs[j], j, start, d);
        if !ok {
          assert !CabAtOk(m, d, j);
          return;
        }
        OneCab(m, d.addrs, j);
      }
      Ends(start);
      ok := true;
    }

    lemma Ends(start: nat)
      requires Valid(start)
      ensures smBlocks == start
    {
    }

    /** parse_spaceman_device(): exactly when a device is accepted; and then it is
        tiled by its chunks, its totals are right, and each bitmap, cib and cab has
        a block of the pool to itself. */
    method ParseDevice(d: Device) returns (ok: bool)
      requires PoolOnly() && Valid(0) && list == [] && smChunks == 0 && smCibs == 0 && ip == {}
      modifies this
      ensures ok <==> DeviceOk(m, d)
      ensures ok ==> PoolOnly() && ip == DeviceUses(m, d) && |ip| == Bitmapped(list) + d.cibs + d.cabs
      ensures ok ==> Tiled(m, list, d.blocks) && |list| == d.chunks == (d.blocks + 32767) / 32768
      ensures ok ==> TotalFree(list) == d.free && d.cibs == (d.chunks + 125) / 126
    {
      hide Tiled, TotalFree, BlocksOf, CibsOk, CabsOk, ChunksOf, CabChunks, CabCibs, UsesOf, CabUses, Bitmapped, PoolOnly;
      if d.blocks > m.maxBlocks || d.chunks != (d.blocks + 32767) / 32768 || d.cibs != (d.chunks + 125) / 126 {
        return false;
      }
      var cabs := (d.cibs + 506) / 507;
      if cabs == 1 {
        cabs := 0;
      }
      if d.cabs != cabs {
        return false;
      }
      if d.cabs == 0 {
        ok := ParseCibList(d);
      } else {
        ok := ParseCabList(d);
        if ok && d.cibs != smCibs {
          return false;
        }
      }
      if !ok {
        return;
      }
      ok := d.chunks == smChunks && d.blocks == smBlocks && d.free == smFree;
    }
  }

  /** How many chunks have a bitmap. */
  function Bitmapped(list: seq<Chunk>): (n: nat)
  {
    if list == [] then 0 else Bitmapped(list[..|list| - 1]) + if list[|list| - 1].bitmap == 0 then 0 else 1
  }

  lemma LastChunk(list: seq<Chunk>, c: Chunk)
    ensures BlocksOf(list + [c]) == BlocksOf(list) + c.blocks
    ensures Bitmapped(list + [c]) == Bitmapped(list) + if c.bitmap == 0 then 0 else 1
  {
    assert (list + [c])[..|list|] == list;
  }

  lemma NoChunksYet(m: Image, chunks: seq<Chunk>, last: bool, start: nat, ip: set<nat>)
    ensures chunks[..0] == [] && BlocksOf([]) == 0 && Bitmaps([]) == {} && Largest(Xids([]), 0) && ChunksOk(m, chunks, 0, last, start, ip)
  {
  }

  /** One more chunk of a block. */
  lemma ChunkStep(m: Image, chunks: seq<Chunk>, k: nat, last: bool, start: nat, ip: set<nat>, maxXid: nat)
    requires k < |chunks| && Largest(Xids(chunks[..k]), maxXid) && ChunksOk(m, chunks, k, last, start, ip)
    ensures var c, ok := chunks[k], ChunkOk(m, chunks[k], last && k == |chunks| - 1, start + BlocksOf(chunks[..k]), ip + Bitmaps(chunks[..k]));
            && (ok <==> ChunksOk(m, chunks, k + 1, last, start, ip)) && (!ok ==> !ChunksOk(m, chunks, |chunks|, last, start, ip))
            && chunks[..k + 1] == chunks[..k] + [c] && Largest(Xids(chunks[..k + 1]), if c.xid > maxXid then c.xid else maxXid)
            && BlocksOf(chunks[..k + 1]) == BlocksOf(chunks[..k]) + c.blocks
            && Bitmaps(chunks[..k + 1]) == Bitmaps(chunks[..k]) + if c.bitmap == 0 then {} else {c.bitmap}
  {
    hide BlocksOf, Bitmaps, ChunkOk, Largest;
    OneChunk(chunks, k);
    LargerStill(Xids(chunks[..k]), maxXid, chunks[k].xid);
    assert Xids(chunks[..k]) + [chunks[k].xid] == Xids(chunks[..k + 1]);
    assert ChunkAtOk(m, chunks, k, last, start, ip)
        <==> ChunkOk(m, chunks[k], last && k == |chunks| - 1, start + BlocksOf(chunks[..k]), ip + Bitmaps(chunks[..k]));
  }

  lemma NoXids()
    ensures Largest([], 0)
  {
  }

  lemma NewestIs(xids: seq<nat>, max: nat, xid: nat)
    requires Largest(xids, max) && xids != [] && forall k: nat | k < |xids| :: xids[k] <= xid
    ensures xid == max <==> exists k: nat :: k < |xids| && xids[k] == xid
  {
  }

  lemma NoCibsListed(m: Image, addrs: seq<nat>)
    ensures ChunksOf(m, addrs, 0) == [] && UsesOf(m, addrs, 0) == {} && BlocksOf([]) == 0 == Bitmapped([])
  {
  }

  lemma OneCib(m: Image, addrs: seq<nat>, k: nat)
    requires k < |addrs|
    ensures ChunksOf(m, addrs, k + 1) == ChunksOf(m, addrs, k) + CibChunks(m, addrs[k])
    ensures BlocksOf(ChunksOf(m, addrs, k + 1)) == BlocksOf(ChunksOf(m, addrs, k)) + BlocksOf(CibChunks(m, addrs[k]))
    ensures TotalFree(ChunksOf(m, addrs, k + 1)) == TotalFree(ChunksOf(m, addrs, k)) + TotalFree(CibChunks(m, addrs[k]))
    ensures UsesOf(m, addrs, k + 1) == UsesOf(m, addrs, k) + {addrs[k]} + Bitmaps(CibChunks(m, addrs[k]))
  {
    hide BlocksOf, TotalFree, Bitmaps;
    SumsJoin(ChunksOf(m, addrs, k), CibChunks(m, addrs[k]));
  }

  lemma NoCabsListed(m: Image, addrs: seq<nat>)
    ensures CabChunks(m, addrs, 0) == [] && CabUses(m, addrs, 0) == {} && CabCibs(m, addrs, 0) == 0 && BlocksOf([]) == 0 == Bitmapped([])
  {
  }

  lemma OneCab(m: Image, addrs: seq<nat>, k: nat)
    requires k < |addrs|
    ensures var cibs := CabAddrs(m, addrs[k]);
            && CabChunks(m, addrs, k + 1) == CabChunks(m, addrs, k) + ChunksOf(m, cibs, |cibs|)
            && BlocksOf(CabChunks(m, addrs, k + 1)) == BlocksOf(CabChunks(m, addrs, k)) + BlocksOf(ChunksOf(m, cibs, |cibs|))
            && TotalFree(CabChunks(m, addrs, k + 1)) == TotalFree(CabChunks(m, addrs, k)) + TotalFree(ChunksOf(m, cibs, |cibs|))
            && CabUses(m, addrs, k + 1) == CabUses(m, addrs, k) + {addrs[k]} + UsesOf(m, cibs, |cibs|)
            && CabCibs(m, addrs, k + 1) == CabCibs(m, addrs, k) + |cibs|
  {
    hide BlocksOf, TotalFree, Bitmaps, ChunksOf, UsesOf;
    var cibs := CabAddrs(m, addrs[k]);
    SumsJoin(CabChunks(m, addrs, k), ChunksOf(m, cibs, |cibs|));
  }
}
