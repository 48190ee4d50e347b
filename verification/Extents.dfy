/** The table of physical extents, which is split on demand and must behave like
    one reference count per block (apfsck/extents.c:98-197, 339-374, 581-637 and
    apfsck/spaceman.c:58-115). */
module Extents {
  import opened Prelude
  import opened Allocation

  const U32: nat := 0x1_0000_0000

  datatype Extent = Extent(blocks: nat, refcnt: nat)

  /** Extents by their first block. An entry is always an old one by the time
      that it can be found again, so e_old_entry is presence in the table. */
  type Table = map<nat, Extent>

  // ----- What the table stands for

  ghost predicate Covers(t: Table, s: nat, b: nat)
  {
    s in t && s <= b < s + t[s].blocks
  }

  ghost predicate Disjoint(t: Table)
  {
    && (forall s: nat | s in t :: t[s].blocks > 0 && s + t[s].blocks < U64)
    && (forall s: nat, u: nat | s in t && u in t && s < u :: s + t[s].blocks <= u)
  }

  /** The reference count of one block. */
  ghost function RefAt(t: Table, b: nat): (r: Option<nat>)
  {
    if exists s: nat :: Covers(t, s, b) then
      var s: nat :| Covers(t, s, b);
      Some(t[s].refcnt)
    else None
  }

  lemma RefIs(t: Table, s: nat, b: nat)
    requires Disjoint(t) && Covers(t, s, b)
    ensures RefAt(t, b) == Some(t[s].refcnt)
  {
    forall u: nat | Covers(t, u, b)
      ensures u == s
    {
      CoversOne(t, s, u, b);
    }
  }

  lemma CoversOne(t: Table, s: nat, u: nat, b: nat)
    requires Disjoint(t) && Covers(t, s, b) && Covers(t, u, b)
    ensures s == u
  {
    assert s < u || u < s || s == u;
  }

  // ----- Splitting

  /** One extent becomes two, which meet at the given block. */
  function Cut(t: Table, s: nat, at: nat): (r: Table)
    requires s in t && s < at < s + t[s].blocks
  {
    t[s := t[s].(blocks := at - s)][at := t[s].(blocks := s + t[s].blocks - at)]
  }

  lemma CutFree(t: Table, s: nat, at: nat)
    requires Disjoint(t) && s in t && s < at < s + t[s].blocks
    ensures at !in t
  {
  }

  lemma CutDisjoint(t: Table, s: nat, at: nat)
    requires Disjoint(t) && s in t && s < at < s + t[s].blocks
    ensures Disjoint(Cut(t, s, at))
  {
    CutFree(t, s, at);
    var r := Cut(t, s, at);
    forall u: nat, v: nat | u in r && v in r && u < v
      ensures u + r[u].blocks <= v
    {
      if u == s {
        assert v == at || s + t[s].blocks <= v;
      } else if u == at {
        assert v in t && s + t[s].blocks <= v;
      } else if v == at {
        assert u in t;
      }
    }
  }

  lemma CutCovers(t: Table, s: nat, at: nat, v: nat, b: nat)
    requires s in t && s < at < s + t[s].blocks
    ensures Covers(Cut(t, s, at), v, b) ==> Covers(t, if v == at then s else v, b)
  {
  }

  /** A cut changes no block's count, and neither adds nor drops blocks. */
  lemma CutKeeps(t: Table, s: nat, at: nat, b: nat)
    requires Disjoint(t) && s in t && s < at < s + t[s].blocks
    ensures RefAt(Cut(t, s, at), b) == RefAt(t, b)
  {
    hide RefAt, Disjoint;
    var r := Cut(t, s, at);
    CutFree(t, s, at);
    CutDisjoint(t, s, at);
    if u: nat :| Covers(t, u, b) {
      RefIs(t, u, b);
      RefIs(r, if u == s && b >= at then at else u, b);
    } else {
      forall v: nat
        ensures !Covers(r, v, b)
      {
        CutCovers(t, s, at, v, b);
      }
      NoRef(t, b);
      NoRef(r, b);
    }
  }

  lemma NoRef(t: Table, b: nat)
    requires forall s: nat :: !Covers(t, s, b)
    ensures RefAt(t, b) == None
  {
  }

  ghost predicate SameRefs(t: Table, u: Table)
  {
    forall b: nat :: RefAt(t, b) == RefAt(u, b)
  }

  lemma CutSame(t: Table, s: nat, at: nat)
    requires Disjoint(t) && s in t && s < at < s + t[s].blocks
    ensures Disjoint(Cut(t, s, at)) && SameRefs(Cut(t, s, at), t)
  {
    CutDisjoint(t, s, at);
    forall b: nat
      ensures RefAt(Cut(t, s, at), b) == RefAt(t, b)
    {
      CutKeeps(t, s, at, b);
    }
  }

  // ----- The table as it is worked on

  ghost predicate Marked(t: Table, used: set<nat>)
  {
    forall s: nat, b: nat | Covers(t, s, b) :: b in used
  }

  function Bump(r: Option<nat>, diff: nat): (s: Option<nat>)
  {
    if r.None? then None else Some((r.value + diff) % U32)
  }

  /** The counts after an update of the blocks from bno to end. */
  ghost predicate Bumped(t: Table, now: Table, bno: nat, end: nat, diff: nat)
  {
    forall b: nat :: RefAt(now, b) == if bno <= b < end then Bump(RefAt(t, b), diff) else RefAt(t, b)
  }

  /** No extent has b in its inside. */
  ghost predicate Boundary(t: Table, b: nat)
  {
    forall s: nat | Covers(t, s, b) :: s == b
  }

  /** A range can be updated when all of its blocks are covered, the search from
      the older record finds the extent of the first, and there are older
      records for the first and for the start of each later extent. */
  ghost predicate Updatable(t: Table, bno: nat, count: nat, lookup: nat -> Option<nat>)
  {
    && PassedFor(t, bno, bno + count, lookup)
    && (count > 0 ==> lookup(bno).Some? && Findable(t, lookup(bno).value, bno))
  }

  ghost predicate PassedFor(t: Table, bno: nat, end: nat, lookup: nat -> Option<nat>)
  {
    forall b: nat | bno <= b < end :: RefAt(t, b).Some? && (b == bno || b in t ==> lookup(b).Some?)
  }

  /** The extent that covers a block, if a search from `from` can find it. */
  ghost predicate Findable(t: Table, from: nat, b: nat)
  {
    exists s: nat :: Covers(t, s, b) && from <= s
  }

  class Volume {
    var table: Table
    var blockCount: nat
    const bitmap: Bitmap
    const nextObjId: nat

    /** Every block of an extent is marked in the container's bitmap. */
    ghost predicate Valid()
      reads this, bitmap, bitmap.bits
    {
      Disjoint(table) && Marked(table, bitmap.Used())
    }

    constructor (container: Bitmap, next: nat)
      ensures bitmap == container && nextObjId == next && table == map[] && blockCount == 0 && Valid()
    {
      bitmap, nextObjId := container, next;
      table, blockCount := map[], 0;
    }

    /** The search of get_subextent() for the extent that covers a block. */
    method FindWhole(from: nat, part: nat) returns (ok: bool, whole: nat)
      requires Disjoint(table)
      ensures ok <==> Findable(table, from, part)
      ensures ok ==> Covers(table, whole, part)
    {
      whole := from;
      while whole <= part
        invariant from <= whole
        invariant forall s: nat | s in table && from <= s < whole :: s + table[s].blocks <= part
        decreases part + 1 - whole
      {
        if whole !in table {
          whole := whole + 1;
          continue;
        }
        var blocks := table[whole].blocks;
        if blocks == 0 || (whole + blocks) % U64 < whole {
          assert false;
        }
        if whole + blocks > part {
          assert Covers(table, whole, part);
          return true, whole;
        }
        whole := whole + blocks;
      }
      ok := false;
    }

    /** get_subextent(): afterwards there is an extent that starts at `part`, with
        at most `count` blocks, and no block's count has changed. */
    method GetSubextent(from: nat, part: nat, count: nat) returns (ok: bool)
      requires Disjoint(table) && count > 0
      modifies this`table
      ensures ok <==> Findable(old(table), from, part)
      ensures ok ==> Disjoint(table) && SameRefs(table, old(table))
      ensures ok ==> part in table && 0 < table[part].blocks <= count
      ensures forall b: nat | part < b < part + count :: b in table <==> b in old(table)
    {
      hide Disjoint, SameRefs;
      if from > part {
        return false;
      }
      var whole;
      ok, whole := FindWhole(from, part);
      if !ok {
        return;
      }
      ghost var t := table;
      Same(t);
      NotEmpty(t, whole);
      var blocks, refcnt := table[whole].blocks, table[whole].refcnt;
      var size := if count < blocks - (part - whole) then count else blocks - (part - whole);
      if whole == part {
        if blocks == size {
          return;
        }
        CutFree(t, part, part + size);
        CutSame(t, part, part + size);
        table := table[part := table[part].(blocks := size)];
        if whole + size in table {
          return false;
        }
        table := table[whole + size := Extent(blocks - size, refcnt)];
        return;
      }
      ok := SplitInside(whole, part, size);
    }

    /** The part lies inside the extent: a head stays before it, and maybe a tail
        after it. The reports about overlapping extents cannot happen. */
    method SplitInside(whole: nat, part: nat, size: nat) returns (ok: bool)
      requires Disjoint(table) && whole in table && whole < part && size > 0
      requires part + size <= whole + table[whole].blocks
      modifies this`table
      ensures ok && Disjoint(table) && SameRefs(table, old(table))
      ensures part in table && table[part].blocks == size
      ensures forall b: nat | part < b < part + size :: b in table <==> b in old(table)
      ensures size < whole + old(table)[whole].blocks - part || table.Keys == old(table).Keys + {part}
    {
      hide Disjoint, SameRefs, Cut;
      ghost var t := table;
      var blocks, refcnt := table[whole].blocks, table[whole].refcnt;
      OneCut(t, whole, part, size);
      CutFree(t, whole, part);
      CutSame(t, whole, part);
      table := table[whole := table[whole].(blocks := part - whole)];
      if part in table {
        return false;
      }
      table := table[part := Extent(size, refcnt)];
      if part - whole + size < blocks {
        TwoCuts(t, whole, part, size);
        if part + size in table {
          return false;
        }
        table := table[part + size := Extent(blocks - (part - whole + size), refcnt)];
      }
      ok := true;
    }

    /** change_extent_refcnts(), where `lookup` is extentref_update_lookup(): an
        extent record of an older snapshot that covers the block. */
    method ChangeRefcnts(bno: nat, count: nat, diff: nat, lookup: nat -> Option<nat>) returns (ok: bool)
      requires Disjoint(table) && forall b: nat :: lookup(b).Some? ==> lookup(b).value <= b
      modifies this`table
      ensures ok <==> Updatable(old(table), bno, count, lookup)
      ensures ok ==> Disjoint(table)
      ensures ok ==> Bumped(old(table), table, bno, bno + count, diff)
    {
      hide Disjoint, RefAt, SameRefs, Findable, Bumped, PassedFor, Boundary;
      ghost var t := table;
      var cur, left := bno, count;
      NothingYet(t, bno, diff, lookup);
      while left > 0
        invariant bno <= cur && left >= 0 && cur + left == bno + count && Disjoint(table)
        invariant Bumped(t, table, bno, cur, diff)
        invariant PassedFor(t, bno, cur, lookup)
        invariant forall b: nat | cur <= b < bno + count :: b in table <==> b in t
        invariant if cur == bno then table == t else lookup(bno).Some? && Findable(t, lookup(bno).value, bno) && Boundary(table, cur)
        decreases left
      {
        var found := lookup(cur);
        if found.None? {
          StuckAt(table, t, bno, count, cur, lookup, diff);
          return false;
        }
        ghost var before := table;
        ok := GetSubextent(found.value, cur, left);
        if !ok {
          StuckAt(before, t, bno, count, cur, lookup, diff);
          return;
        }
        var e := table[cur];
        PieceDone(before, table, t, bno, count, cur, lookup, diff);
        table := table[cur := e.(refcnt := (e.refcnt + diff) % U32)];
        left := left - e.blocks;
        cur := cur + e.blocks;
      }
      ok := true;
    }

    /** parse_phys_ext_record(): `last` is the last block of the extent. */
    method ParsePhysExt(r: PhysExt, lookup: nat -> Option<nat>) returns (ok: bool, last: nat)
      requires Valid() && forall b: nat :: lookup(b).Some? ==> lookup(b).value <= b
      modifies this, bitmap.bits
      ensures ok <==>
              && FieldsOk(r, nextObjId)
              && if r.kind == NEW then
                   && r.paddr + r.length <= bitmap.bits.Length
                   && Blocks(r.paddr, r.length) !! old(bitmap.Used())
                 else Updatable(old(table), r.paddr, r.length, lookup)
      ensures ok ==> Valid() && last + 1 == r.paddr + r.length && Stepped(r, old(table), table)
      ensures ok ==> bitmap.Used() == old(bitmap.Used()) + Claimed(r) && Claimed(r) !! old(bitmap.Used())
      ensures ok ==> blockCount == old(blockCount) + |Claimed(r)|
    {
      hide Disjoint, Marked, Updatable, RefAt, Stepped, Bumped, Blocks;
      last := 0;
      if !FieldsOk(r, nextObjId) {
        return false, last;
      }
      if r.kind == NEW {
        if r.paddr in table {
          AlreadyUsed(table, r.paddr, r.length, bitmap.Used());
          return false, last;
        }
        ok := bitmap.MarkUsed(r.paddr, r.length);
        if !ok {
          return;
        }
        NewStep(table, r, old(bitmap.Used()));
        BlocksSize(r.paddr, r.length);
        table := table[r.paddr := Extent(r.length, r.refcnt)];
        blockCount := blockCount + r.length;
      } else {
        ok := ChangeRefcnts(r.paddr, r.length, r.refcnt, lookup);
        if !ok {
          return;
        }
        UpdateStep(old(table), table, r, bitmap.Used());
      }
      last := r.paddr + r.length - 1;
    }

    /** A whole run of records, over all the extent reference trees. */
    method ParseRun(rs: seq<PhysExt>, lookup: (nat, nat) -> Option<nat>) returns (ok: bool)
      requires Valid() && forall k: nat, b: nat :: lookup(k, b).Some? ==> lookup(k, b).value <= b
      modifies this, bitmap.bits
      ensures ok ==> Valid() && Reached(rs, old(table), table)
      ensures ok ==> old(bitmap.Used()) <= bitmap.Used()
      ensures ok ==> blockCount - old(blockCount) == |bitmap.Used() - old(bitmap.Used())|
      ensures ok ==> Apart(rs, bitmap.Used())
    {
      hide RefAt, Disjoint, Marked, Stepped, Reached, Claimed, RefAfter, Apart, bitmap.Used;
      ghost var t, used := table, bitmap.Used();
      assert used - used == {} && rs[..0] == [];
      NothingReached(t);
      ApartNone(used);
      for k := 0 to |rs|
        invariant Valid() && Reached(rs[..k], t, table)
        invariant used <= bitmap.Used() && blockCount - old(blockCount) == |bitmap.Used() - used|
        invariant Apart(rs[..k], bitmap.Used())
      {
        ghost var before, now := table, bitmap.Used();
        var last;
        ok, last := ParsePhysExt(rs[k], (b: nat) => lookup(k, b));
        if !ok {
          return;
        }
        ReachedMore(rs[..k], rs[k], t, before, table);
        ApartMore(rs[..k], rs[k], now);
        assert rs[..k + 1] == rs[..k] + [rs[k]];
        Grown(used, now, Claimed(rs[k]));
      }
      assert rs[..|rs|] == rs;
      ok := true;
    }

    /** The search backwards for the start of an extent (extents.c:351-355). */
    method FindBase(cur: nat) returns (ok: bool, base: nat)
      requires cur < U64
      ensures ok ==> base in table
      ensures if exists x: nat :: x in table && x <= cur <= x + 4999 then ok && base <= cur && NoStart(table, base, cur)
              else !ok || (base > cur && forall x: nat | x <= cur :: x !in table)
    {
      base := cur;
      var limit := 5000;
      while base !in table
        invariant 0 < limit <= 5000 && base < U64
        invariant if base <= cur then base + 5000 == cur + limit && NoStart(table, base, cur)
                  else base + 5000 == U64 + cur + limit && forall x: nat | x <= cur :: x !in table
        decreases limit
      {
        limit := limit - 1;
        if limit == 0 {
          return false, base;
        }
        base := if base == 0 then U64 - 1 else base - 1;
      }
      ok := true;
    }

    /** Splitting on behalf of a logical extent (extents.c:339-374): no count changes,
        and it succeeds exactly when the whole range is covered and the extent of
        its first block starts no more than 4999 blocks before that. */
    method SplitForReferences(bno: nat, count: nat) returns (ok: bool)
      requires Disjoint(table) && bno + count <= U64
      modifies this`table
      ensures ok <==> Reachable(old(table), bno, count)
      ensures ok ==> Disjoint(table) && SameRefs(table, old(table))
    {
      hide Disjoint, SameRefs, RefAt, Covers, Boundary, Findable, NoStart;
      ghost var t := table;
      Same(t);
      var cur, left := bno, count;
      while left > 0
        invariant bno <= cur && left >= 0 && cur + left == bno + count && Disjoint(table) && SameRefs(table, t)
        invariant forall b: nat | bno <= b < cur :: RefAt(t, b).Some?
        invariant if cur == bno then table == t else Near(t, bno) && Boundary(table, cur)
        decreases left
      {
        var found, base := FindBase(cur);
        ghost var before := table;
        if found {
          ok := GetSubextent(base, cur, left);
        } else {
          ok := false;
        }
        NearOnly(before, t, bno, cur, found, base);
        if !ok {
          return;
        }
        SameTransitive(table, before, t);
        CoveredPiece(table, t, cur);
        EndsAt(table, cur);
        left := left - table[cur].blocks;
        cur := cur + table[cur].blocks;
      }
      ok := true;
    }
  }

  /** No extent starts between two blocks. */
  ghost predicate NoStart(t: Table, a: nat, b: nat)
  {
    forall x: nat | a < x <= b :: x !in t
  }

  /** The extent of a block starts close enough before it. */
  ghost predicate Near(t: Table, b: nat)
  {
    exists s: nat :: Covers(t, s, b) && b <= s + 4999
  }

  ghost predicate Reachable(t: Table, bno: nat, count: nat)
  {
    && (forall b: nat | bno <= b < bno + count :: RefAt(t, b).Some?)
    && (count > 0 ==> Near(t, bno))
  }

  lemma EndsAt(t: Table, s: nat)
    requires Disjoint(t) && s in t
    ensures Boundary(t, s + t[s].blocks)
  {
  }

  /** What a failure to find or to split says about the range. */
  lemma NearOnly(now: Table, t: Table, bno: nat, cur: nat, found: bool, base: nat)
    requires Disjoint(now) && SameRefs(now, t) && (if cur == bno then now == t else Boundary(now, cur))
    requires if exists x: nat :: x in now && x <= cur <= x + 4999 then found && base in now && base <= cur && NoStart(now, base, cur)
             else !found || (base > cur && forall x: nat | x <= cur :: x !in now)
    ensures found && Findable(now, base, cur) ==> RefAt(t, cur).Some? && (cur == bno ==> Near(t, bno))
    ensures !(found && Findable(now, base, cur)) ==> RefAt(t, cur).None? || (cur == bno && !Near(t, bno))
  {
    assert RefAt(now, cur) == RefAt(t, cur);
    hide RefAt;
    if found && Findable(now, base, cur) {
      var s: nat :| Covers(now, s, cur) && base <= s;
      CoverRef(now, s, cur);
    }
    if RefAt(now, cur).Some? && (cur == bno ==> Near(t, bno)) {
      HasRef(now, cur);
      var s: nat :| Covers(now, s, cur) && cur <= s + 4999;
      CanFind(now, cur, s, found, base);
    }
  }

  lemma CanFind(t: Table, cur: nat, s: nat, found: bool, base: nat)
    requires Disjoint(t) && Covers(t, s, cur) && cur <= s + 4999
    requires if exists x: nat :: x in t && x <= cur <= x + 4999 then found && base in t && base <= cur && NoStart(t, base, cur)
             else !found || (base > cur && forall x: nat | x <= cur :: x !in t)
    ensures found && Findable(t, base, cur)
  {
    assert s in t && s <= cur <= s + 4999;
    assert Covers(t, s, cur) && base <= s;
  }

  // ----- Records

  const NEW: nat := 1
  const UPDATE: nat := 2

  datatype PhysExt = PhysExt(valueSize: nat, kind: nat, length: nat, owner: nat, refcnt: nat, paddr: nat)

  /** The checks on the fields of a record. Lengths and addresses have 60 bits. */
  predicate FieldsOk(r: PhysExt, nextObjId: nat)
  {
    && r.valueSize == 20
    && (r.kind == NEW || r.kind == UPDATE)
    && 0 < r.length < 0x1000_0000_0000_0000 && r.paddr < 0x1000_0000_0000_0000
    && (if r.owner == U64 - 1 then r.kind == UPDATE else r.kind == NEW && 16 <= r.owner < nextObjId)
    && 0 < r.refcnt < U32
  }

  /** A record as it is on disk, the header of the key and the two words of 64 bits that
      hold kind and length, and the owner. */
  function FromDisk(size: nat, key: nat, lenAndKind: nat, owner: nat, refcnt: nat): (r: PhysExt)
  {
    PhysExt(size, lenAndKind / 0x1000_0000_0000_0000, lenAndKind % 0x1000_0000_0000_0000, owner, refcnt, key % 0x1000_0000_0000_0000)
  }

  /** What is refused of that: a value that is not of 20 bytes; kinds other than NEW and
      UPDATE; no blocks; no references; and an owner, unless there is none and it is an
      update, that is reserved or not yet given out, or any owner for an update. */
  lemma DiskFields(size: nat, key: nat, lenAndKind: nat, owner: nat, refcnt: nat, nextObjId: nat)
    requires key < U64 && lenAndKind < U64 && owner < U64 && refcnt < U32
    ensures var kind := lenAndKind / 0x1000_0000_0000_0000;
            FieldsOk(FromDisk(size, key, lenAndKind, owner, refcnt), nextObjId) <==>
              && size == 8 + 8 + 4 && lenAndKind % 0x1000_0000_0000_0000 != 0 && refcnt != 0
              && ((kind == 2 && owner == 0xFFFF_FFFF_FFFF_FFFF) || (kind == 1 && 16 <= owner < nextObjId && owner != 0xFFFF_FFFF_FFFF_FFFF))
  {
  }

  /** The blocks that a record adds to the bitmap. */
  function Claimed(r: PhysExt): set<nat>
  {
    if r.kind == NEW then Blocks(r.paddr, r.length) else {}
  }

  /** What a record does to the count of one block. */
  function RefStep(r: PhysExt, b: nat, ref: Option<nat>): (s: Option<nat>)
  {
    if !(r.paddr <= b < r.paddr + r.length) then ref
    else if r.kind == NEW then Some(r.refcnt)
    else Bump(ref, r.refcnt)
  }

  function RefAfter(rs: seq<PhysExt>, b: nat, ref: Option<nat>): (s: Option<nat>)
  {
    if rs == [] then ref else RefStep(rs[|rs| - 1], b, RefAfter(rs[..|rs| - 1], b, ref))
  }

  ghost predicate Stepped(r: PhysExt, t: Table, now: Table)
  {
    forall b: nat :: RefAt(now, b) == RefStep(r, b, RefAt(t, b))
  }

  /** Every block has the count that the whole run gives it. */
  ghost predicate Reached(rs: seq<PhysExt>, t: Table, now: Table)
  {
    forall b: nat :: RefAt(now, b) == RefAfter(rs, b, RefAt(t, b))
  }

  lemma ReachedMore(rs: seq<PhysExt>, r: PhysExt, t: Table, before: Table, now: Table)
    requires Reached(rs, t, before) && Stepped(r, before, now)
    ensures Reached(rs + [r], t, now)
  {
    hide RefAt;
    assert (rs + [r])[..|rs|] == rs;
  }

  /** The blocks of new extents are all marked, and no two of them share one. */
  ghost predicate Apart(rs: seq<PhysExt>, used: set<nat>)
  {
    && (forall i: nat | i < |rs| :: Claimed(rs[i]) <= used)
    && (forall i: nat, j: nat | i < j < |rs| :: Claimed(rs[i]) !! Claimed(rs[j]))
  }

  lemma ApartNone(used: set<nat>)
    ensures Apart([], used)
  {
  }

  lemma ApartMore(rs: seq<PhysExt>, r: PhysExt, used: set<nat>)
    requires Apart(rs, used) && Claimed(r) !! used
    ensures Apart(rs + [r], used + Claimed(r))
  {
    hide Claimed;
  }

  lemma NothingReached(t: Table)
    ensures Reached([], t, t)
  {
  }

  lemma Grown(used: set<nat>, now: set<nat>, more: set<nat>)
    requires used <= now && more !! now
    ensures |now + more - used| == |now - used| + |more|
  {
    assert now + more - used == (now - used) + more;
  }

  lemma AlreadyUsed(t: Table, first: nat, count: nat, used: set<nat>)
    requires Disjoint(t) && Marked(t, used) && first in t && count > 0
    ensures !(Blocks(first, count) !! used)
  {
    assert Covers(t, first, first);
    assert first in Blocks(first, count) && first in used;
  }

  /** A new extent, all of whose blocks were free, overlaps no other. */
  lemma NewStep(t: Table, r: PhysExt, used: set<nat>)
    requires Disjoint(t) && Marked(t, used) && r.kind == NEW && r.length > 0 && r.paddr + r.length < U64
    requires r.paddr !in t && Blocks(r.paddr, r.length) !! used
    ensures var now := t[r.paddr := Extent(r.length, r.refcnt)];
            Disjoint(now) && Stepped(r, t, now) && Marked(now, used + Blocks(r.paddr, r.length))
  {
    hide RefAt;
    var now := t[r.paddr := Extent(r.length, r.refcnt)];
    NewDisjoint(t, r, used);
    forall s: nat, b: nat | Covers(now, s, b)
      ensures b in used + Blocks(r.paddr, r.length)
    {
      assert s != r.paddr ==> Covers(t, s, b);
    }
    forall b: nat
      ensures RefAt(now, b) == RefStep(r, b, RefAt(t, b))
    {
      if v: nat :| Covers(now, v, b) {
        RefIs(now, v, b);
        if v != r.paddr {
          assert Covers(t, v, b);
          RefIs(t, v, b);
          assert b in used && b !in Blocks(r.paddr, r.length);
        }
      } else {
        assert !Covers(now, r.paddr, b);
        forall v: nat
          ensures !Covers(t, v, b)
        {
          assert Covers(t, v, b) ==> Covers(now, v, b);
        }
        NoRef(t, b);
        NoRef(now, b);
      }
    }
  }

  lemma NewDisjoint(t: Table, r: PhysExt, used: set<nat>)
    requires Disjoint(t) && Marked(t, used) && r.length > 0 && r.paddr + r.length < U64
    requires r.paddr !in t && Blocks(r.paddr, r.length) !! used
    ensures Disjoint(t[r.paddr := Extent(r.length, r.refcnt)])
  {
    var now := t[r.paddr := Extent(r.length, r.refcnt)];
    forall s: nat, u: nat | s in now && u in now && s < u
      ensures s + now[s].blocks <= u
    {
      if s == r.paddr {
        assert Covers(t, u, u);
        assert u in used && u !in Blocks(r.paddr, r.length);
      } else if u == r.paddr {
        assert u in Blocks(r.paddr, r.length) && u !in used;
        assert !Covers(t, s, u);
      }
    }
  }

  lemma UpdateStep(t: Table, now: Table, r: PhysExt, used: set<nat>)
    requires Disjoint(t) && Disjoint(now) && Marked(t, used) && r.kind != NEW
    requires Bumped(t, now, r.paddr, r.paddr + r.length, r.refcnt)
    ensures Stepped(r, t, now) && Marked(now, used)
  {
    hide RefAt;
    forall s: nat, b: nat | Covers(now, s, b)
      ensures b in used
    {
      RefIs(now, s, b);
      HasRef(t, b);
    }
  }

  lemma CoveredPiece(now: Table, t: Table, s: nat)
    requires Disjoint(now) && SameRefs(now, t) && s in now
    ensures forall b: nat | s <= b < s + now[s].blocks :: RefAt(t, b).Some?
  {
    hide RefAt;
    forall b: nat | s <= b < s + now[s].blocks
      ensures RefAt(t, b).Some?
    {
      RefIs(now, s, b);
      assert RefAt(now, b) == RefAt(t, b);
    }
  }

  /** Head and part, when there is no tail. */
  lemma OneCut(t: Table, whole: nat, part: nat, size: nat)
    requires whole in t && whole < part && size > 0 && part + size <= whole + t[whole].blocks
    ensures part + size == whole + t[whole].blocks ==>
              Cut(t, whole, part) == t[whole := t[whole].(blocks := part - whole)][part := Extent(size, t[whole].refcnt)]
  {
  }

  /** Head, part and tail are two cuts. */
  lemma TwoCuts(t: Table, whole: nat, part: nat, size: nat)
    requires Disjoint(t) && whole in t && whole < part && size > 0 && part + size < whole + t[whole].blocks
    ensures var blocks, refcnt := t[whole].blocks, t[whole].refcnt;
            var two := t[whole := t[whole].(blocks := part - whole)][part := Extent(size, refcnt)];
            var three := two[part + size := Extent(blocks - (part - whole + size), refcnt)];
            Disjoint(three) && SameRefs(three, t) && part + size !in two
  {
    hide Disjoint, SameRefs;
    var cut := Cut(t, whole, part);
    CutSame(t, whole, part);
    CutFree(t, whole, part);
    CutFree(cut, part, part + size);
    CutSame(cut, part, part + size);
    SameTransitive(Cut(cut, part, part + size), cut, t);
    assert Cut(cut, part, part + size) ==
           t[whole := t[whole].(blocks := part - whole)][part := Extent(size, t[whole].refcnt)]
           [part + size := Extent(t[whole].blocks - (part - whole + size), t[whole].refcnt)];
  }

  lemma Same(t: Table)
    ensures SameRefs(t, t)
  {
  }

  lemma SameTransitive(t: Table, u: Table, v: Table)
    requires SameRefs(t, u) && SameRefs(u, v)
    ensures SameRefs(t, v)
  {
  }

  // ----- Changing counts

  lemma SetRefs(t: Table, s: nat, refcnt: nat)
    requires Disjoint(t) && s in t
    ensures var u := t[s := t[s].(refcnt := refcnt)];
            && Disjoint(u)
            && forall b: nat :: RefAt(u, b) == if s <= b < s + t[s].blocks then Some(refcnt) else RefAt(t, b)
  {
    hide RefAt;
    var u := t[s := t[s].(refcnt := refcnt)];
    assert Disjoint(u);
    forall b: nat
      ensures RefAt(u, b) == if s <= b < s + t[s].blocks then Some(refcnt) else RefAt(t, b)
    {
      if v: nat :| Covers(u, v, b) {
        RefIs(u, v, b);
        assert Covers(t, v, b);
        RefIs(t, v, b);
        if s <= b < s + t[s].blocks {
          CoversOne(t, s, v, b);
        }
      } else {
        forall v: nat
          ensures !Covers(t, v, b)
        {
          assert Covers(t, v, b) ==> Covers(u, v, b);
        }
        assert !Covers(t, s, b);
        NoRef(t, b);
        NoRef(u, b);
      }
    }
  }

  lemma HasRef(t: Table, b: nat)
    requires RefAt(t, b).Some?
    ensures exists s: nat :: Covers(t, s, b)
  {
  }

  lemma CoverRef(t: Table, s: nat, b: nat)
    requires Covers(t, s, b)
    ensures RefAt(t, b).Some?
  {
  }

  lemma NotEmpty(t: Table, s: nat)
    requires Disjoint(t) && s in t
    ensures t[s].blocks > 0
  {
  }

  lemma NothingYet(t: Table, bno: nat, diff: nat, lookup: nat -> Option<nat>)
    ensures Bumped(t, t, bno, bno, diff) && PassedFor(t, bno, bno, lookup)
  {
  }

  /** Beyond the first block, a piece always starts where an extent does, so the
      search cannot miss it. */
  lemma StuckAt(now: Table, t: Table, bno: nat, count: nat, cur: nat, lookup: nat -> Option<nat>, diff: nat)
    requires bno <= cur < bno + count && Bumped(t, now, bno, cur, diff) && (cur in now <==> cur in t)
    requires if cur == bno then now == t else Disjoint(now) && Boundary(now, cur)
    requires lookup(cur).None? || (lookup(cur).value <= cur && !Findable(now, lookup(cur).value, cur))
    ensures !Updatable(t, bno, count, lookup)
  {
    hide RefAt;
    if cur > bno && RefAt(t, cur).Some? {
      HasRef(now, cur);
      assert cur in now;
      NotEmpty(now, cur);
      assert Covers(now, cur, cur);
    }
  }

  /** One piece is split off and changed. */
  lemma PieceDone(before: Table, now: Table, t: Table, bno: nat, count: nat, cur: nat, lookup: nat -> Option<nat>, diff: nat)
    requires bno <= cur < bno + count && Disjoint(now) && SameRefs(now, before) && Bumped(t, before, bno, cur, diff)
    requires forall b: nat | cur <= b < bno + count :: b in before <==> b in t
    requires cur in now && cur + now[cur].blocks <= bno + count
    requires forall b: nat | cur < b < bno + count :: b in now <==> b in before
    requires PassedFor(t, bno, cur, lookup) && lookup(cur).Some?
    ensures PassedFor(t, bno, cur + now[cur].blocks, lookup)
    ensures var after := now[cur := now[cur].(refcnt := (now[cur].refcnt + diff) % U32)];
            && Disjoint(after) && Boundary(after, cur + now[cur].blocks)
            && Bumped(t, after, bno, cur + now[cur].blocks, diff)
  {
    hide RefAt;
    var end := cur + now[cur].blocks;
    forall b: nat | cur <= b < end
      ensures RefAt(t, b) == Some(now[cur].refcnt) && (b in t ==> b == cur)
    {
      RefIs(now, cur, b);
      assert RefAt(now, b) == RefAt(before, b);
    }
    SetRefs(now, cur, (now[cur].refcnt + diff) % U32);
    var after := now[cur := now[cur].(refcnt := (now[cur].refcnt + diff) % U32)];
    forall s: nat | Covers(after, s, end)
      ensures s == end
    {
      assert s < end ==> s == cur || s < cur || cur < s;
    }
    BumpMore(t, before, now, after, bno, cur, diff);
  }

  lemma BumpMore(t: Table, before: Table, now: Table, after: Table, bno: nat, cur: nat, diff: nat)
    requires SameRefs(now, before) && Bumped(t, before, bno, cur, diff) && cur in now && bno <= cur
    requires forall b: nat :: RefAt(after, b) == if cur <= b < cur + now[cur].blocks then Some((now[cur].refcnt + diff) % U32) else RefAt(now, b)
    requires forall b: nat | cur <= b < cur + now[cur].blocks :: RefAt(t, b) == Some(now[cur].refcnt)
    ensures Bumped(t, after, bno, cur + now[cur].blocks, diff)
  {
    hide RefAt;
    forall b: nat
      ensures RefAt(after, b) == if bno <= b < cur + now[cur].blocks then Bump(RefAt(t, b), diff) else RefAt(t, b)
    {
      assert RefAt(now, b) == RefAt(before, b);
    }
  }
}
