/** How the blocks of one volume and of all its snapshots are accounted for:
    reads of objects, extents, snapshots, and the final check of the object map
    (apfsck/object.c:110-221; apfsck/btree.c:746-784, 825-876;
    apfsck/extents.c:623-637; apfsck/snapshot.c:93-133). */
module Snapshots {
  import opened Prelude
  import Htable
  import opened Allocation
  import opened Omap

  /** A record, by its object id and its place in the list. */
  ghost predicate SeenAt(t: Table, oid: nat, k: nat)
  {
    oid in t && k < |t[oid]| && t[oid][k].seen
  }

  /** The block of a record that was seen is marked, and it is the block of no
      other such record. */
  ghost predicate SeenMarked(t: Table, used: set<nat>)
  {
    && (forall oid: nat, k: nat | SeenAt(t, oid, k) :: t[oid][k].bno in used)
    && (forall oid: nat, k: nat, oid': nat, k': nat | SeenAt(t, oid, k) && SeenAt(t, oid', k') ::
          t[oid][k].bno == t[oid'][k'].bno ==> oid == oid' && k == k')
  }

  lemma MoreUsed(t: Table, used: set<nat>, more: set<nat>)
    requires SeenMarked(t, used)
    ensures SeenMarked(t, used + more)
  {
  }

  /** A record is seen for the first time, and its block gets marked. */
  lemma FirstSeen(t: Table, used: set<nat>, oid: nat, k: nat, r: Rec)
    requires SeenMarked(t, used) && oid in t && k < |t[oid]| && !t[oid][k].seen
    requires r.bno == t[oid][k].bno && r.seen && r.bno !in used
    ensures SeenMarked(t[oid := t[oid][k := r]], used + {r.bno})
  {
    var t' := t[oid := t[oid][k := r]];
    forall o: nat, j: nat | SeenAt(t', o, j) && !(o == oid && j == k)
      ensures SeenAt(t, o, j) && t'[o][j].bno == t[o][j].bno
    {
    }
  }

  /** Flags of a record change that do not matter here. */
  lemma SameSeen(t: Table, used: set<nat>, oid: nat, k: nat, r: Rec)
    requires SeenMarked(t, used) && oid in t && k < |t[oid]|
    requires r.bno == t[oid][k].bno && r.seen == t[oid][k].seen
    ensures SeenMarked(t[oid := t[oid][k := r]], used)
  {
    var t' := t[oid := t[oid][k := r]];
    forall o: nat, j: nat | SeenAt(t', o, j)
      ensures SeenAt(t, o, j) && t'[o][j].bno == t[o][j].bno
    {
    }
  }

  lemma SameList(t: Table, used: set<nat>, oid: nat)
    requires SeenMarked(t, used)
    ensures SeenMarked(t[oid := ListOf(t, oid)], used)
  {
    var t' := t[oid := ListOf(t, oid)];
    forall o: nat, j: nat | SeenAt(t', o, j)
      ensures SeenAt(t, o, j) && t'[o][j].bno == t[o][j].bno
    {
    }
  }

  lemma KeepsOrder(t: Table, oid: nat, k: nat, r: Rec)
    requires GoodTable(t) && oid in t && k < |t[oid]| && r.xid == t[oid][k].xid
    ensures GoodTable(t[oid := t[oid][k := r]])
  {
    assert Ordered(t[oid]);
  }

  lemma OneMore(base: set<nat>, used: set<nat>, more: set<nat>)
    requires base <= used && more !! used
    ensures |used + more - base| == |used - base| + |more|
  {
    assert used + more - base == (used - base) + more;
  }

  lemma OneBlock(bno: nat)
    ensures Blocks(bno, 1) == {bno}
  {
  }

  /** The types of objects that make a difference here. */
  datatype Kind = VolumeSuper | Other

  /** What the header of an object says. `newer` stands for the trees of a snapshot
      that later transactions may change, and `sound` for the checks of the flags,
      of ids that are reserved or not yet given out, and of the first transaction
      of the volume. */
  datatype Header = Header(kind: Kind, oid: nat, xid: nat, newer: bool, sound: bool)

  /** The checks of a header, once the block has been accounted for. */
  predicate HeaderFits(h: Header, oid: nat, xid: nat, inSnapshot: bool)
  {
    h.oid == oid && h.xid != 0 && (xid < h.xid ==> inSnapshot && h.newer) && h.sound
  }

  /** Where the block is to come from: the device has it, and nothing uses it. */
  ghost predicate Free(bno: nat, size: nat, used: set<nat>)
  {
    bno < size && bno + 1 < U64 && bno !in used
  }

  /** An object without a header takes its id and transaction from the object map. */
  function HeaderOf(h: Header, noheader: bool, oid: nat, r: Rec): (h': Header)
  {
    if noheader then h.(oid := oid, xid := r.xid) else h
  }

  /** What a read through the object map asks of the record and of the header. */
  ghost predicate Readable(r: Rec, h: Header, oid: nat, xid: nat, inSnapshot: bool, noheader: bool, query: bool)
  {
    && r.bno != 0 && r.noheader == noheader
    && (query || !(if inSnapshot then r.seenForSnap else r.seenForLatest))
    && h.kind == Other && HeaderFits(HeaderOf(h, noheader, oid, r), oid, xid, inSnapshot) && HeaderOf(h, noheader, oid, r).xid == r.xid
  }

  class VolumeCheck {
    const omap: OmapTable
    const bitmap: Bitmap
    var xid: nat                 // sb->s_xid
    var inSnapshot: bool         // vsb->v_in_snapshot
    var count: nat               // vsb->v_block_count
    var latestXid: nat           // in a snapshot: the saved transaction
    var latestCount: nat         // in a snapshot: the count of the latest one
    ghost var supers: nat        // superblocks of snapshots that were read
    ghost const base: set<nat>   // what was marked before the volume was

    ghost predicate Valid()
      reads this, omap, bitmap, bitmap.bits
    {
      && GoodTable(omap.table) && SeenMarked(omap.table, bitmap.Used())
      && base <= bitmap.Used()
      && |bitmap.Used() - base| == count + (if inSnapshot then latestCount else 0) + supers
    }

    constructor (table: OmapTable, container: Bitmap, now: nat)
      requires GoodTable(table.table) && forall oid: nat, k: nat :: !SeenAt(table.table, oid, k)
      ensures omap == table && bitmap == container && xid == now && !inSnapshot && count == 0 && supers == 0
      ensures base == container.Used() && Valid()
    {
      omap, bitmap, xid, inSnapshot := table, container, now, false;
      count, latestXid, latestCount, supers := 0, 0, 0, 0;
      base := container.Used();
      new;
      assert bitmap.Used() - base == {};
    }

    /** The blocks of a NEW extent, or those of a physical object. */
    method MarkBlocks(bno: nat, length: nat, counts: bool) returns (ok: bool)
      requires Valid() && bno < U64 && length < U64
      modifies this`count, this`supers, bitmap.bits
      ensures ok <==> bno + length <= bitmap.bits.Length && bno + length < U64 && Blocks(bno, length) !! old(bitmap.Used())
      ensures ok ==> bitmap.Used() == old(bitmap.Used()) + Blocks(bno, length)
      ensures ok ==> count + supers == old(count + supers) + length && (if counts then supers == old(supers) else count == old(count))
      ensures ok ==> Valid()
    {
      hide SeenMarked, GoodTable, Blocks, bitmap.Used;
      ghost var before := bitmap.Used();
      ok := bitmap.MarkUsed(bno, length);
      if ok {
        if counts {
          count := count + length;
        } else {
          supers := supers + length;
        }
        BlocksSize(bno, length);
        OneMore(base, before, Blocks(bno, length));
        MoreUsed(omap.table, before, Blocks(bno, length));
      }
    }

    /** read_object() without an object map; `wanted` is the type that the caller
        insists on. */
    method ReadPhysical(bno: nat, h: Header, wanted: Kind, query: bool) returns (ok: bool)
      requires Valid() && bno < U64
      modifies this`count, this`supers, bitmap.bits
      ensures ok <==>
              && h.kind == wanted && HeaderFits(h, bno, xid, inSnapshot)
              && (query || Free(bno, bitmap.bits.Length, old(bitmap.Used())))
      ensures ok ==> Valid() && bitmap.Used() == old(bitmap.Used()) + (if query then {} else {bno})
      ensures ok && wanted == VolumeSuper && !query ==> count == old(count) && supers == old(supers) + 1
      ensures ok && (wanted == Other || query) ==> supers == old(supers) && count == old(count) + if query then 0 else 1
    {
      hide SeenMarked, GoodTable, bitmap.Used, HeaderFits, Blocks;
      ok := true;
      if !query {
        OneBlock(bno);
        ok := MarkBlocks(bno, 1, h.kind != VolumeSuper);
      }
      ok := ok && HeaderFits(h, bno, xid, inSnapshot) && h.kind == wanted;
    }

    /** read_object() through the object map. A record that was already seen for
        another transaction costs nothing; otherwise its block must be free. */
    method ReadVirtual(oid: nat, h: Header, noheader: bool, query: bool) returns (ok: bool, ghost k: int)
      requires Valid()
      modifies this`count, this`supers, omap, bitmap.bits
      ensures oid in omap.table && IsLatest(ListOf(old(omap.table), oid), xid, k)
      ensures ok <==>
              && k >= 0
              && var r := ListOf(old(omap.table), oid)[k];
                 && Readable(r, h, oid, xid, inSnapshot, noheader, query)
                 && (query || r.seen || Free(r.bno, bitmap.bits.Length, old(bitmap.Used())))
      ensures ok ==> Valid() && supers == old(supers)
      ensures ok ==> var r := ListOf(old(omap.table), oid)[k];
                     if query || r.seen then bitmap.Used() == old(bitmap.Used()) && count == old(count)
                     else bitmap.Used() == old(bitmap.Used()) + {r.bno} && count == old(count) + 1
      ensures ok ==> var r := ListOf(old(omap.table), oid)[k];
                     omap.table == old(omap.table)[oid := ListOf(old(omap.table), oid)[k := AfterRead(r, inSnapshot, query)]]
    {
      hide SeenMarked, GoodTable, bitmap.Used, IsLatest, Free, HeaderFits, Valid, AfterRead;
      var at := Latest(oid);
      k := at;
      if at < 0 {
        return false, k;
      }
      var r := omap.table[oid][at];
      if r.bno == 0 || r.noheader != noheader || (!query && (if inSnapshot then r.seenForSnap else r.seenForLatest)) {
        return false, k;
      }
      ok := Use(oid, at, r, h.kind, query);
      var header := HeaderOf(h, noheader, oid, r);
      ok := ok && HeaderFits(header, oid, xid, inSnapshot) && header.xid == r.xid && h.kind == Other;
    }

    /** A record is found and flagged, unless this is a query. */
    method Use(oid: nat, k: nat, r: Rec, kind: Kind, query: bool) returns (ok: bool)
      requires Valid() && oid in omap.table && k < |omap.table[oid]| && r == omap.table[oid][k]
      modifies this`count, this`supers, omap, bitmap.bits
      ensures ok <==> query || r.seen || Free(r.bno, bitmap.bits.Length, old(bitmap.Used()))
      ensures ok ==> omap.table == old(omap.table)[oid := old(omap.table)[oid][k := AfterRead(r, inSnapshot, query)]] && Valid()
      ensures ok && kind == Other ==> supers == old(supers)
      ensures ok && kind == Other ==>
                if query || r.seen then bitmap.Used() == old(bitmap.Used()) && count == old(count)
                else bitmap.Used() == old(bitmap.Used()) + {r.bno} && count == old(count) + 1
      ensures oid in omap.table
    {
      hide SeenMarked, GoodTable, bitmap.Used, Free, Valid;
      if query {
        assert omap.table[oid][k := r] == omap.table[oid];
        return true;
      }
      ok := Account(oid, k, r, if inSnapshot then r.(seenForSnap := true) else r.(seenForLatest := true), kind);
    }

    /** The search of the object map, which may leave an empty list behind. */
    method Latest(oid: nat) returns (k: int)
      requires Valid()
      modifies omap
      ensures Valid() && omap.table == old(omap.table)[oid := ListOf(old(omap.table), oid)]
      ensures -1 <= k < |omap.table[oid]| && IsLatest(omap.table[oid], xid, k)
    {
      hide SeenMarked, GoodTable, bitmap.Used;
      SameList(omap.table, bitmap.Used(), oid);
      SameOrder(omap.table, oid);
      k := omap.GetLatest(oid, xid);
    }

    /** The accounting part of a read through the object map. */
    method Account(oid: nat, k: nat, r: Rec, flagged: Rec, kind: Kind) returns (ok: bool)
      requires Valid() && oid in omap.table && k < |omap.table[oid]| && r == omap.table[oid][k]
      requires flagged.bno == r.bno && flagged.seen == r.seen && flagged.xid == r.xid
      modifies this`count, this`supers, omap, bitmap.bits
      ensures ok <==> r.seen || Free(r.bno, bitmap.bits.Length, old(bitmap.Used()))
      ensures ok ==> omap.table == old(omap.table)[oid := old(omap.table)[oid][k := flagged.(seen := true)]] && Valid()
      ensures ok && kind == Other ==> supers == old(supers)
      ensures ok && kind == Other ==>
                if r.seen then bitmap.Used() == old(bitmap.Used()) && count == old(count)
                else bitmap.Used() == old(bitmap.Used()) + {r.bno} && count == old(count) + 1
      ensures oid in omap.table
    {
      hide SeenMarked, GoodTable, bitmap.Used, Blocks;
      ghost var t, used := omap.table, bitmap.Used();
      ok := true;
      KeepsOrder(t, oid, k, flagged.(seen := true));
      if !r.seen {
        if r.bno + 1 >= U64 {
          return false;
        }
        OneBlock(r.bno);
        ok := MarkBlocks(r.bno, 1, kind != VolumeSuper);
        if !ok {
          return;
        }
        FirstSeen(t, used, oid, k, flagged.(seen := true));
      } else {
        SameSeen(t, used, oid, k, flagged);
        assert flagged.(seen := true) == flagged;
      }
      omap.table := omap.table[oid := omap.table[oid][k := flagged.(seen := true)]];
    }

    /** The start of check_snapshot(): the superblock of the snapshot is read as
        part of it, but not counted. */
    method Enter(snapXid: nat, volBno: nat, h: Header) returns (ok: bool)
      requires Valid() && !inSnapshot && volBno < U64
      modifies this, omap, bitmap.bits
      ensures ok <==> h.kind == VolumeSuper && HeaderFits(h, volBno, snapXid, true) && Free(volBno, bitmap.bits.Length, old(bitmap.Used()))
      ensures ok ==> Valid() && inSnapshot && xid == snapXid && count == 0 && latestCount == old(count) && latestXid == old(xid)
      ensures ok ==> supers == old(supers) + 1 && bitmap.Used() == old(bitmap.Used()) + {volBno}
      ensures ok ==> omap.table == Cleared(old(omap.table))
    {
      hide SeenMarked, GoodTable, bitmap.Used, Cleared, Free, HeaderFits;
      latestXid, latestCount := xid, count;
      xid, count, inSnapshot := snapXid, 0, true;
      ok := ReadPhysical(volBno, h, VolumeSuper, false);
      if !ok {
        return;
      }
      ClearedKeeps(omap.table, bitmap.Used());
      omap.table := Cleared(omap.table);
    }

    /** The end of check_snapshot(). */
    method Leave()
      requires Valid() && inSnapshot
      modifies this
      ensures Valid() && !inSnapshot && xid == old(latestXid) && count == old(latestCount + count) && supers == old(supers)
    {
      xid, inSnapshot := latestXid, false;
      count := latestCount + count;
    }

    /** One thing that happens while the volume is checked. */
    method Step(e: Event) returns (ok: bool)
      requires Valid()
      modifies this, omap, bitmap.bits
      ensures ok ==> Valid() && supers == old(supers) + (if e.Enter? then 1 else 0) && old(bitmap.Used()) <= bitmap.Used()
    {
      hide SeenMarked, GoodTable, Cleared, IsLatest, Blocks, bitmap.Used, Free, HeaderFits, Readable;
      match e
      case Physical(bno, h, query) =>
        if bno >= U64 {
          return false;
        }
        ok := ReadPhysical(bno, h, Other, query);
      case Virtual(oid, h, noheader, query) =>
        ghost var k;
        ok, k := ReadVirtual(oid, h, noheader, query);
      case Extent(bno, length) =>
        if bno >= U64 || length >= U64 {
          return false;
        }
        ok := MarkBlocks(bno, length, true);
      case Enter(snapXid, volBno, h) =>
        if inSnapshot || volBno >= U64 {
          return false;
        }
        ok := Enter(snapXid, volBno, h);
      case Leave =>
        if !inSnapshot {
          return false;
        }
        Leave();
        ok := true;
    }

    /** The final check of one record: it must have been seen, unless it is deleted
        or is a leaked block of extended snapshot metadata. */
    method FreeRecord(oid: nat, k: nat, leaked: nat -> bool) returns (ok: bool)
      requires Valid() && !inSnapshot && oid in omap.table && k < |omap.table[oid]|
      modifies this`count, this`supers, omap, bitmap.bits
      ensures ok ==> Valid() && supers == old(supers) && oid in omap.table && k < |omap.table[oid]| && Freed(omap.table[oid][k])
      ensures ok ==> omap.table == old(omap.table)[oid := old(omap.table)[oid][k := omap.table[oid][k]]]
      ensures !ok ==> !old(CanFree(leaked))
      ensures ok ==> (CanFree(leaked) <==> old(CanFree(leaked)))
    {
      hide SeenMarked, GoodTable, bitmap.Used, AllCanFree, Free;
      var r := omap.table[oid][k];
      RecordCanFree(omap.table, bitmap.Used(), bitmap.bits.Length, xid, leaked, oid, k);
      if r.deleted || r.seen {
        assert omap.table[oid][k := r] == omap.table[oid];
        ok := !r.deleted || !r.seen;
      } else if r.xid < xid && leaked(r.bno) {
        ok := Account(oid, k, r, r, Other);
      } else {
        ok := false;
      }
    }

    /** All records pass their final check. */
    ghost predicate CanFree(leaked: nat -> bool)
      reads this, omap, bitmap, bitmap.bits
    {
      AllCanFree(omap.table, bitmap.Used(), bitmap.bits.Length, xid, leaked)
    }

    /** free_omap_record_list(), for one list. */
    method FreeList(oid: nat, leaked: nat -> bool) returns (ok: bool)
      requires Valid() && !inSnapshot && oid in omap.table
      modifies this`count, this`supers, omap, bitmap.bits
      ensures ok ==> Valid() && supers == old(supers) && oid in omap.table && AllFreed(omap.table[oid])
      ensures ok ==> omap.table == old(omap.table)[oid := omap.table[oid]]
      ensures !ok ==> !old(CanFree(leaked))
      ensures ok ==> (CanFree(leaked) <==> old(CanFree(leaked)))
    {
      hide SeenMarked, GoodTable, bitmap.Used, CanFree;
      ghost var t := omap.table;
      var n := |omap.table[oid]|;
      for k := 0 to n
        invariant Valid() && supers == old(supers) && oid in omap.table && |omap.table[oid]| == n
        invariant omap.table == t[oid := omap.table[oid]]
        invariant AllFreed(omap.table[oid][..k])
        invariant CanFree(leaked) <==> old(CanFree(leaked))
      {
        ghost var before := omap.table[oid];
        ok := FreeRecord(oid, k, leaked);
        if !ok {
          return;
        }
        assert omap.table[oid][..k + 1] == before[..k] + [omap.table[oid][k]];
      }
      assert omap.table[oid][..n] == omap.table[oid];
      ok := true;
    }

    /** free_omap_table(): afterwards every record that is not deleted has a block
        of its own in the bitmap. */
    method FreeOmapTable(leaked: nat -> bool) returns (ok: bool)
      requires Valid() && !inSnapshot
      modifies this`count, this`supers, omap, bitmap.bits
      ensures ok <==> old(CanFree(leaked))
      ensures ok ==> Valid() && supers == old(supers)
      ensures ok ==> forall oid: nat | oid in omap.table :: AllFreed(omap.table[oid])
    {
      hide SeenMarked, GoodTable, bitmap.Used, AllFreed, AllCanFree;
      var left := omap.table.Keys;
      while left != {}
        invariant Valid() && supers == old(supers) && left <= omap.table.Keys
        invariant forall oid: nat | oid in omap.table && oid !in left :: AllFreed(omap.table[oid])
        invariant CanFree(leaked) <==> old(CanFree(leaked))
        decreases |left|
      {
        var oid :| oid in left;
        ok := FreeList(oid, leaked);
        if !ok {
          return;
        }
        left := left - {oid};
      }
      NothingOwed(omap.table, bitmap.Used(), bitmap.bits.Length, xid, leaked);
      ok := true;
    }

    /** The check of a volume, with all that happens in its snapshots: if nothing
        is reported, then the recorded count is the number of blocks that were
        marked, except for the superblocks of the snapshots. */
    method Run(es: seq<Event>, leaked: nat -> bool, allocCount: nat) returns (ok: bool)
      requires Valid() && !inSnapshot && supers == 0 && count == 0 && base == bitmap.Used()
      modifies this, omap, bitmap.bits
      ensures ok ==> base <= bitmap.Used() && |bitmap.Used() - base| == allocCount + SnapshotsIn(es)
      ensures ok ==> SeenMarked(omap.table, bitmap.Used()) && forall oid: nat | oid in omap.table :: AllFreed(omap.table[oid])
    {
      hide SeenMarked, GoodTable, bitmap.Used, AllFreed;
      for k := 0 to |es|
        invariant Valid() && supers == SnapshotsIn(es[..k])
      {
        ok := Step(es[k]);
        if !ok {
          return;
        }
        assert es[..k + 1][..k] == es[..k];
      }
      assert es[..|es|] == es;
      if inSnapshot {
        return false;
      }
      ok := FreeOmapTable(leaked);
      ok := ok && allocCount == count;
    }
  }

  datatype Event =
    | Physical(bno: nat, header: Header, query: bool)
    | Virtual(oid: nat, header: Header, noheader: bool, query: bool)
    | Extent(bno: nat, length: nat)
    | Enter(xid: nat, volBno: nat, header: Header)
    | Leave

  function SnapshotsIn(es: seq<Event>): (n: nat)
  {
    if es == [] then 0 else SnapshotsIn(es[..|es| - 1]) + if es[|es| - 1].Enter? then 1 else 0
  }

  /** Deleted records are not in use, and all others are. */
  ghost predicate Freed(r: Rec)
  {
    r.seen == !r.deleted
  }

  ghost predicate AllFreed(s: seq<Rec>)
  {
    forall k: nat | k < |s| :: Freed(s[k])
  }

  /** A record that is neither deleted nor in use may be a leaked block of extended
      snapshot metadata. */
  ghost predicate Owed(t: Table, oid: nat, k: nat)
  {
    oid in t && k < |t[oid]| && !t[oid][k].deleted && !t[oid][k].seen
  }

  /** When free_omap_table() has nothing to report: deleted records are not in use,
      and those that are not seen are leaks, each with a free block of its own. */
  ghost predicate AllCanFree(t: Table, used: set<nat>, size: nat, xid: nat, leaked: nat -> bool)
  {
    && (forall oid: nat, k: nat | SeenAt(t, oid, k) :: !t[oid][k].deleted)
    && (forall oid: nat, k: nat | Owed(t, oid, k) :: var r := t[oid][k]; r.xid < xid && leaked(r.bno) && Free(r.bno, size, used))
    && (forall oid: nat, k: nat, oid': nat, k': nat | Owed(t, oid, k) && Owed(t, oid', k') ::
          t[oid][k].bno == t[oid'][k'].bno ==> oid == oid' && k == k')
  }

  lemma NothingOwed(t: Table, used: set<nat>, size: nat, xid: nat, leaked: nat -> bool)
    requires forall oid: nat | oid in t :: AllFreed(t[oid])
    ensures AllCanFree(t, used, size, xid, leaked)
  {
    forall oid: nat, k: nat | SeenAt(t, oid, k) || Owed(t, oid, k)
      ensures SeenAt(t, oid, k) && !t[oid][k].deleted
    {
      assert AllFreed(t[oid]);
      assert Freed(t[oid][k]);
    }
  }

  /** What the check of one record says about all of them. */
  lemma RecordCanFree(t: Table, used: set<nat>, size: nat, xid: nat, leaked: nat -> bool, oid: nat, k: nat)
    requires oid in t && k < |t[oid]|
    ensures var r := t[oid][k];
            && (AllCanFree(t, used, size, xid, leaked) ==>
                  if r.deleted || r.seen then !r.deleted || !r.seen else r.xid < xid && leaked(r.bno) && Free(r.bno, size, used))
            && (Owed(t, oid, k) && r.xid < xid && leaked(r.bno) && Free(r.bno, size, used) ==>
                  (AllCanFree(t, used, size, xid, leaked) <==>
                   AllCanFree(t[oid := t[oid][k := r.(seen := true)]], used + {r.bno}, size, xid, leaked)))
  {
    var r := t[oid][k];
    assert SeenAt(t, oid, k) || Owed(t, oid, k) || (r.deleted && !r.seen);
    if Owed(t, oid, k) && r.xid < xid && leaked(r.bno) && Free(r.bno, size, used) {
      var t' := t[oid := t[oid][k := r.(seen := true)]];
      forall o: nat, j: nat | !(o == oid && j == k)
        ensures SeenAt(t', o, j) == SeenAt(t, o, j) && Owed(t', o, j) == Owed(t, o, j)
        ensures Owed(t, o, j) || SeenAt(t, o, j) ==> t'[o][j] == t[o][j]
      {
      }
      if AllCanFree(t, used, size, xid, leaked) {
        PaidForward(t, used, size, xid, leaked, oid, k, t');
      } else if AllCanFree(t', used + {r.bno}, size, xid, leaked) {
        PaidBack(t, used, size, xid, leaked, oid, k, t');
      }
    }
  }

  lemma PaidForward(t: Table, used: set<nat>, size: nat, xid: nat, leaked: nat -> bool, oid: nat, k: nat, t': Table)
    requires Owed(t, oid, k) && AllCanFree(t, used, size, xid, leaked) && t' == t[oid := t[oid][k := t[oid][k].(seen := true)]]
    ensures AllCanFree(t', used + {t[oid][k].bno}, size, xid, leaked)
  {
    forall o: nat, j: nat | Owed(t', o, j)
      ensures Owed(t, o, j) && !(o == oid && j == k) && t'[o][j] == t[o][j]
    {
    }
    forall o: nat, j: nat | SeenAt(t', o, j)
      ensures !t'[o][j].deleted
    {
      assert !(o == oid && j == k) ==> SeenAt(t, o, j);
    }
  }

  lemma PaidBack(t: Table, used: set<nat>, size: nat, xid: nat, leaked: nat -> bool, oid: nat, k: nat, t': Table)
    requires Owed(t, oid, k) && t' == t[oid := t[oid][k := t[oid][k].(seen := true)]]
    requires var r := t[oid][k]; r.xid < xid && leaked(r.bno) && Free(r.bno, size, used) && AllCanFree(t', used + {r.bno}, size, xid, leaked)
    ensures AllCanFree(t, used, size, xid, leaked)
  {
    forall o: nat, j: nat | Owed(t, o, j) && !(o == oid && j == k)
      ensures Owed(t', o, j) && t'[o][j] == t[o][j]
    {
    }
    forall o: nat, j: nat | SeenAt(t, o, j)
      ensures !t[o][j].deleted
    {
      assert SeenAt(t', o, j) && t'[o][j] == t[o][j];
    }
  }

  function ClearList(s: seq<Rec>): (r: seq<Rec>)
    ensures |r| == |s| && forall k: nat | k < |s| :: r[k] == s[k].(seenForSnap := false)
  {
    if s == [] then [] else ClearList(s[..|s| - 1]) + [s[|s| - 1].(seenForSnap := false)]
  }

  /** omap_htable_clear_seen_for_snap() */
  function Cleared(t: Table): (r: Table)
  {
    map oid | oid in t :: ClearList(t[oid])
  }

  /** The same on the hash table that holds the lists. */
  method ClearSeenForSnap(h: Htable.Table<seq<Rec>>)
    requires h.Valid()
    modifies h, h.buckets
    ensures h.Valid() && h.contents == Cleared(old(h.contents))
  {
    hide ClearList;
    var ok := h.Apply((id: nat, s: seq<Rec>) => Some(ClearList(s)));
    assert ok;
  }

  lemma ClearedKeeps(t: Table, used: set<nat>)
    requires GoodTable(t) && SeenMarked(t, used)
    ensures GoodTable(Cleared(t)) && SeenMarked(Cleared(t), used)
  {
    var r := Cleared(t);
    forall oid: nat | oid in r
      ensures Ordered(r[oid])
    {
      assert Ordered(t[oid]);
    }
    forall o: nat, j: nat | SeenAt(r, o, j)
      ensures SeenAt(t, o, j) && r[o][j].bno == t[o][j].bno
    {
    }
  }

  function AfterRead(r: Rec, inSnapshot: bool, query: bool): Rec
  {
    if query then r
    else if inSnapshot then r.(seen := true, seenForSnap := true)
    else r.(seen := true, seenForLatest := true)
  }

  lemma SameOrder(t: Table, oid: nat)
    requires GoodTable(t)
    ensures GoodTable(t[oid := ListOf(t, oid)])
  {
    assert Ordered(ListOf(t, oid));
  }

  // ----- Two reads in a row

  /** After a read the same record cannot be read again in the same transaction; in
      a snapshot and in the latest transaction it can be read once each, whichever
      comes first; and queries can always be repeated. The block was counted, so the
      second read needs no free one. */
  lemma ReadTwice(r: Rec, h: Header, oid: nat, xid: nat, inSnapshot: bool, noheader: bool)
    requires Readable(r, h, oid, xid, inSnapshot, noheader, false)
    ensures var r' := AfterRead(r, inSnapshot, false);
            && r'.seen && r'.(seen := r.seen, seenForSnap := r.seenForSnap, seenForLatest := r.seenForLatest) == r
            && (forall g: Header, now: nat :: !Readable(r', g, oid, now, inSnapshot, noheader, false))
            && (forall g: Header, now: nat, s: bool, nh: bool | s != inSnapshot ::
                  Readable(r', g, oid, now, s, nh, false) <==> Readable(r, g, oid, now, s, nh, false))
            && (forall g: Header, now: nat, s: bool, nh: bool ::
                  Readable(r', g, oid, now, s, nh, true) <==> Readable(r, g, oid, now, s, nh, true))
    ensures AfterRead(r, inSnapshot, true) == r
  {
  }

  /** In the next snapshot it can be read again. */
  lemma ReadNextSnapshot(t: Table, oid: nat, k: nat, h: Header, xid: nat, noheader: bool)
    requires oid in t && k < |t[oid]| && Readable(t[oid][k], h, oid, xid, true, noheader, false)
    ensures var t' := Cleared(t[oid := t[oid][k := AfterRead(t[oid][k], true, false)]]);
            Readable(t'[oid][k], h, oid, xid, true, noheader, false)
  {
  }

  /** A header passes in its own transaction exactly when it has the id of the object
      and its other fields are sound; what passes once passes in all later ones; and
      an earlier transaction accepts it only in a snapshot. */
  lemma HeadersThatFit(h: Header, oid: nat, xid: nat, inSnapshot: bool)
    ensures HeaderFits(h, oid, h.xid, false) <==> h.oid == oid && h.xid > 0 && h.sound
    ensures HeaderFits(h, oid, xid, inSnapshot) ==> forall now: nat | now >= xid :: HeaderFits(h, oid, now, inSnapshot)
    ensures HeaderFits(h, oid, xid, inSnapshot) ==> HeaderFits(h, oid, h.xid, false) && (h.xid <= xid || (inSnapshot && h.newer))
    ensures HeaderFits(h, oid, h.xid, false) && (h.xid <= xid || (inSnapshot && h.newer)) ==> HeaderFits(h, oid, xid, inSnapshot)
  {
  }

  /** What a read gets is the object of the record: its header has the id that was
      asked for and the transaction of the record, or there is no header. */
  lemma ReadsTheRecord(r: Rec, h: Header, oid: nat, xid: nat, inSnapshot: bool, noheader: bool, query: bool)
    requires r.xid <= xid
    ensures Readable(r, h, oid, xid, inSnapshot, noheader, query) <==>
            && r.bno != 0 && r.xid != 0 && r.noheader == noheader && h.kind == Other && h.sound
            && (noheader || (h.oid == oid && h.xid == r.xid))
            && (query || (if inSnapshot then !r.seenForSnap else !r.seenForLatest))
  {
  }
}
