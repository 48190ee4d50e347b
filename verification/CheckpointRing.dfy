/** The mappings of a checkpoint's ephemeral objects, which lie in a ring of
    blocks (apfsck/super.c:1298-1315, 1360-1397, 1424-1470, 1501-1506). */
module CheckpointRing {
  import opened Prelude

  const SPACEMAN: nat := 5

  /** How many mappings of 40 bytes there is room for in a block, after its header. */
  const MAX_MAPS: nat := (4096 - 40) / 40

  /** The fields of the superblock about the data area. */
  datatype Area = Area(base: nat, blocks: nat, next: nat, index: nat, len: nat)

  datatype Mapping = Mapping(oid: nat, paddr: nat, kind: nat, size: nat, pad: nat, fsOid: nat)

  /** What preread_checkpoint_info() and the parsing of the superblock demand. */
  predicate Sane(a: Area)
  {
    && 0 < a.blocks < 0x8000_0000 && a.next < a.blocks && a.index < a.blocks && a.len <= a.blocks
    && Rem(a.index + a.len, a.blocks) == a.next
  }

  /** The remainder of a division, for an index that went around the ring. */
  function Rem(a: nat, n: nat): (r: nat)
    requires n > 0
    ensures r < n
  {
    if a < n then a else Rem(a - n, n)
  }

  lemma {:induction false} RemIsMod(a: nat, n: nat)
    requires n > 0
    ensures Rem(a, n) == a % n
  {
    if a >= n {
      RemIsMod(a - n, n);
      ModMinus(a, n);
    }
  }

  lemma ModMinus(a: nat, n: nat)
    requires n > 0 && a >= n
    ensures (a - n) % n == a % n
  {
    var q, r := (a - n) / n, (a - n) % n;
    assert a - n == n * q + r;
    assert a == n * (q + 1) + r;
    RemainderIs(a, n, q + 1, r);
  }

  // ----- What is accepted

  function Blkcnt(m: Mapping): nat { m.size / 4096 }

  /** How far into the valid part of the ring an index is. */
  function StartOff(a: Area, idx: nat): nat
    requires a.index < a.blocks
  {
    Rem(a.blocks + idx - a.index, a.blocks)
  }

  /** The checks on one mapping that do not depend on the others. */
  predicate MapOk(a: Area, m: Mapping, idx: nat)
    requires a.index < a.blocks
  {
    && m.paddr != 0 && m.paddr == a.base + idx
    && m.size % 4096 == 0 && (m.kind % 0x1_0000 == SPACEMAN || m.size == 4096)
    && m.pad == 0 && m.fsOid == 0
    && StartOff(a, idx) < a.len && StartOff(a, idx) + Blkcnt(m) <= a.len
  }

  /** The expected index after the first k mappings. */
  function IndexAt(a: Area, list: seq<Mapping>, k: nat): (idx: nat)
    requires a.index < a.blocks && k <= |list|
    ensures idx < a.blocks
  {
    if k == 0 then a.index else Rem(IndexAt(a, list, k - 1) + Blkcnt(list[k - 1]), a.blocks)
  }

  ghost predicate AcceptedUpTo(a: Area, list: seq<Mapping>, k: nat)
    requires a.index < a.blocks && k <= |list|
  {
    (forall i: nat | i < k :: MapAt(a, list, i)) && Different(list, k)
  }

  ghost predicate MapAt(a: Area, list: seq<Mapping>, i: nat)
    requires a.index < a.blocks && i < |list|
  {
    MapOk(a, list[i], IndexAt(a, list, i))
  }

  ghost predicate Different(list: seq<Mapping>, k: nat)
    requires k <= |list|
  {
    forall i: nat, j: nat | i < j < k :: list[i].oid != list[j].oid
  }

  ghost predicate Accepted(a: Area, list: seq<Mapping>)
    requires a.index < a.blocks
  {
    AcceptedUpTo(a, list, |list|) && IndexAt(a, list, |list|) == a.next
  }

  lemma {:induction false} IndexPrefix(a: Area, list: seq<Mapping>, more: seq<Mapping>, k: nat)
    requires a.index < a.blocks && k <= |list|
    ensures IndexAt(a, list + more, k) == IndexAt(a, list, k)
  {
    if k > 0 {
      IndexPrefix(a, list, more, k - 1);
    }
  }

  lemma AcceptedMore(a: Area, list: seq<Mapping>, m: Mapping)
    requires a.index < a.blocks && AcceptedUpTo(a, list, |list|)
    ensures AcceptedUpTo(a, list + [m], |list| + 1) <==>
            MapOk(a, m, IndexAt(a, list, |list|)) && forall i: nat | i < |list| :: list[i].oid != m.oid
    ensures IndexAt(a, list + [m], |list| + 1) == Rem(IndexAt(a, list, |list|) + Blkcnt(m), a.blocks)
  {
    hide MapAt, Different;
    var n, longer := |list|, list + [m];
    forall i: nat | i < n
      ensures MapAt(a, longer, i) == MapAt(a, list, i)
    {
      SameMap(a, list, m, i);
    }
    LastMap(a, list, m);
    DifferentMore(list, m);
  }

  lemma SameMap(a: Area, list: seq<Mapping>, m: Mapping, i: nat)
    requires a.index < a.blocks && i < |list|
    ensures MapAt(a, list + [m], i) == MapAt(a, list, i)
  {
    hide MapOk, IndexAt;
    IndexPrefix(a, list, [m], i);
  }

  lemma LastMap(a: Area, list: seq<Mapping>, m: Mapping)
    requires a.index < a.blocks
    ensures MapAt(a, list + [m], |list|) == MapOk(a, m, IndexAt(a, list, |list|))
    ensures IndexAt(a, list + [m], |list| + 1) == Rem(IndexAt(a, list, |list|) + Blkcnt(m), a.blocks)
  {
    hide MapOk, Rem;
    IndexPrefix(a, list, [m], |list|);
  }

  lemma DifferentMore(list: seq<Mapping>, m: Mapping)
    requires Different(list, |list|)
    ensures Different(list + [m], |list| + 1) <==> forall i: nat | i < |list| :: list[i].oid != m.oid
  {
    var n, longer := |list|, list + [m];
    forall i: nat | i < n
      ensures longer[i].oid != longer[n].oid <==> list[i].oid != m.oid
    {
    }
  }

  // ----- The ring

  /** The total number of blocks of the first k mappings. */
  function Offset(list: seq<Mapping>, k: nat): (n: nat)
    requires k <= |list|
  {
    if k == 0 then 0 else Offset(list, k - 1) + Blkcnt(list[k - 1])
  }

  /** The distance from one index to another, going forward. */
  function Distance(a: Area): (d: nat)
    requires a.index < a.blocks && a.next < a.blocks
  {
    if a.index <= a.next then a.next - a.index else a.blocks + a.next - a.index
  }

  lemma RemOnce(x: nat, n: nat)
    requires 0 < n && x < 2 * n
    ensures Rem(x, n) == if x < n then x else x - n
  {
    if x >= n {
      assert Rem(x, n) == Rem(x - n, n);
    }
  }

  lemma RingOffset(a: Area, o: nat)
    requires a.index < a.blocks && o < a.blocks
    ensures StartOff(a, Rem(a.index + o, a.blocks)) == o
  {
    RemOnce(a.index + o, a.blocks);
    RemOnce(a.blocks + Rem(a.index + o, a.blocks) - a.index, a.blocks);
  }

  lemma RemShift(x: nat, y: nat, n: nat)
    requires 0 < n && x < 2 * n
    ensures Rem(Rem(x, n) + y, n) == Rem(x + y, n)
  {
    RemOnce(x, n);
    if x >= n {
      assert Rem(x + y, n) == Rem(x + y - n, n);
    }
  }

  /** As long as the valid part is not the whole ring, each mapping starts where
      the one before it ended. */
  lemma {:induction false} Consecutive(a: Area, list: seq<Mapping>, k: nat)
    requires a.index < a.blocks && a.len < a.blocks && k <= |list| && AcceptedUpTo(a, list, k)
    ensures Offset(list, k) <= a.len && IndexAt(a, list, k) == Rem(a.index + Offset(list, k), a.blocks)
  {
    hide Rem, Blkcnt, MapOk, Different;
    if k == 0 {
      RemOnce(a.index, a.blocks);
    } else {
      FewerAccepted(a, list, k);
      Consecutive(a, list, k - 1);
      NextStart(a, list[k - 1], IndexAt(a, list, k - 1), Offset(list, k - 1));
    }
  }

  lemma FewerAccepted(a: Area, list: seq<Mapping>, k: nat)
    requires a.index < a.blocks && 0 < k <= |list| && AcceptedUpTo(a, list, k)
    ensures AcceptedUpTo(a, list, k - 1) && MapOk(a, list[k - 1], IndexAt(a, list, k - 1))
  {
    hide MapOk, IndexAt;
    assert MapAt(a, list, k - 1);
  }

  lemma NextStart(a: Area, m: Mapping, idx: nat, o: nat)
    requires a.index < a.blocks && o <= a.len < a.blocks && idx == Rem(a.index + o, a.blocks) && MapOk(a, m, idx)
    ensures o + Blkcnt(m) <= a.len && Rem(idx + Blkcnt(m), a.blocks) == Rem(a.index + (o + Blkcnt(m)), a.blocks)
  {
    hide Rem, Blkcnt;
    RingOffset(a, o);
    RemShift(a.index + o, Blkcnt(m), a.blocks);
    assert a.index + o + Blkcnt(m) == a.index + (o + Blkcnt(m));
  }

  /** The blocks of the ring from offset o on. */
  function RingBlocks(a: Area, o: nat, n: nat): (s: set<nat>)
    requires a.index < a.blocks
  {
    if n == 0 then {} else RingBlocks(a, o, n - 1) + {Rem(a.index + o + n - 1, a.blocks)}
  }

  lemma {:induction false} RingHas(a: Area, o: nat, n: nat, x: nat)
    requires a.index < a.blocks && o + n <= a.blocks
    ensures x in RingBlocks(a, o, n) <==> x < a.blocks && o <= StartOff(a, x) < o + n
    decreases n
  {
    if n > 0 {
      RingHas(a, o, n - 1, x);
      RingOffset(a, o + n - 1);
      if x < a.blocks && StartOff(a, x) == o + n - 1 {
        SameOffset(a, x, o + n - 1);
      }
    }
  }

  lemma SameOffset(a: Area, x: nat, o: nat)
    requires a.index < a.blocks && x < a.blocks && StartOff(a, x) == o
    ensures x == Rem(a.index + o, a.blocks)
  {
    RemOnce(a.blocks + x - a.index, a.blocks);
    RemOnce(a.index + o, a.blocks);
  }

  /** The blocks that a mapping covers. */
  function MappingBlocks(a: Area, list: seq<Mapping>, k: nat): set<nat>
    requires a.index < a.blocks && k < |list|
  {
    RingBlocks(a, Offset(list, k), Blkcnt(list[k]))
  }

  lemma {:induction false} OffsetsGrow(list: seq<Mapping>, i: nat, j: nat)
    requires i <= j <= |list|
    ensures Offset(list, i) <= Offset(list, j)
    decreases j
  {
    if i < j {
      OffsetsGrow(list, i, j - 1);
    }
  }

  /** When the valid part is not the whole ring, the mappings of an accepted
      checkpoint fill it: no two overlap, a block is in some mapping exactly when
      it is between the two indices, and the counts add up to the distance. */
  lemma MappingsTile(a: Area, list: seq<Mapping>)
    requires Sane(a) && a.len < a.blocks && Accepted(a, list)
    ensures Offset(list, |list|) == Distance(a) == a.len
    ensures forall i: nat, j: nat | i < j < |list| :: MappingBlocks(a, list, i) !! MappingBlocks(a, list, j)
    ensures forall k: nat | k < |list| :: list[k].paddr == a.base + Rem(a.index + Offset(list, k), a.blocks)
    ensures forall x: nat | x in RingBlocks(a, 0, Distance(a)) :: exists k: nat :: k < |list| && x in MappingBlocks(a, list, k)
    ensures forall x: nat, k: nat | k < |list| && x in MappingBlocks(a, list, k) :: x in RingBlocks(a, 0, Distance(a))
  {
    hide MapOk, Rem, Offset, RingBlocks, IndexAt, AcceptedUpTo, MappingBlocks;
    var n := |list|;
    Consecutive(a, list, n);
    RemOnce(a.index + a.len, a.blocks);
    RemOnce(a.index + Offset(list, n), a.blocks);
    forall i: nat, j: nat | i < j < n
      ensures MappingBlocks(a, list, i) !! MappingBlocks(a, list, j)
    {
      Apart(a, list, i, j);
    }
    forall k: nat | k < n
      ensures list[k].paddr == a.base + Rem(a.index + Offset(list, k), a.blocks)
    {
      StartsAt(a, list, k);
    }
    forall x: nat | x in RingBlocks(a, 0, Distance(a))
      ensures exists k: nat :: k < n && x in MappingBlocks(a, list, k)
    {
      RingHas(a, 0, Distance(a), x);
      var k := Find(a, list, n, x);
    }
    forall x: nat, k: nat | k < n && x in MappingBlocks(a, list, k)
      ensures x in RingBlocks(a, 0, Distance(a))
    {
      Within(a, list, k, x);
    }
  }

  lemma OffsetNext(list: seq<Mapping>, k: nat)
    requires k < |list|
    ensures Offset(list, k + 1) == Offset(list, k) + Blkcnt(list[k])
  {
  }

  lemma Within(a: Area, list: seq<Mapping>, k: nat, x: nat)
    requires a.index < a.blocks && k < |list| && Offset(list, |list|) < a.blocks && x in MappingBlocks(a, list, k)
    ensures x in RingBlocks(a, 0, Offset(list, |list|))
  {
    OffsetsGrow(list, k + 1, |list|);
    OffsetNext(list, k);
    RingHas(a, Offset(list, k), Blkcnt(list[k]), x);
    RingHas(a, 0, Offset(list, |list|), x);
  }

  lemma Apart(a: Area, list: seq<Mapping>, i: nat, j: nat)
    requires a.index < a.blocks && i < j < |list| && Offset(list, |list|) < a.blocks
    ensures MappingBlocks(a, list, i) !! MappingBlocks(a, list, j)
  {
    OffsetsGrow(list, i + 1, j);
    OffsetsGrow(list, j + 1, |list|);
    OffsetNext(list, i);
    OffsetNext(list, j);
    forall x | x in MappingBlocks(a, list, i)
      ensures x !in MappingBlocks(a, list, j)
    {
      RingHas(a, Offset(list, i), Blkcnt(list[i]), x);
      RingHas(a, Offset(list, j), Blkcnt(list[j]), x);
    }
  }

  lemma StartsAt(a: Area, list: seq<Mapping>, k: nat)
    requires a.index < a.blocks && a.len < a.blocks && k < |list| && AcceptedUpTo(a, list, |list|)
    ensures list[k].paddr == a.base + Rem(a.index + Offset(list, k), a.blocks)
  {
    hide IndexAt;
    assert AcceptedUpTo(a, list, k);
    Consecutive(a, list, k);
    assert MapAt(a, list, k);
  }

  lemma {:induction false} Find(a: Area, list: seq<Mapping>, n: nat, x: nat) returns (k: nat)
    requires a.index < a.blocks && n <= |list| && Offset(list, n) < a.blocks && x < a.blocks && StartOff(a, x) < Offset(list, n)
    ensures k < n && x in MappingBlocks(a, list, k)
    decreases n
  {
    if StartOff(a, x) < Offset(list, n - 1) {
      k := Find(a, list, n - 1, x);
    } else {
      k := n - 1;
      RingHas(a, Offset(list, k), Blkcnt(list[k]), x);
    }
  }

  // ----- What is accepted, as a whole

  /** The fields of a mapping by themselves: whole blocks; just one, unless it is for
      the space manager; and nothing in the fields that are not in use. */
  predicate Plain(m: Mapping)
  {
    && m.paddr > 0 && m.size == 4096 * Blkcnt(m) && (m.size != 4096 ==> m.kind % 0x1_0000 == SPACEMAN)
    && m.pad == 0 == m.fsOid
  }

  /** Mapping k starts where those before it end, inside of the valid part. */
  ghost predicate InTurn(a: Area, list: seq<Mapping>, k: nat)
    requires a.index < a.blocks && k < |list|
  {
    Offset(list, k) < a.len && list[k].paddr == a.base + Rem(a.index + Offset(list, k), a.blocks)
  }

  /** When the valid part is not the whole ring, mappings are accepted if and only if
      they are plain, for different objects, one after the other from the start of the
      valid part, and just as many blocks as it has. */
  lemma AcceptedIff(a: Area, list: seq<Mapping>)
    requires Sane(a) && a.len < a.blocks
    ensures Accepted(a, list) <==>
            && Offset(list, |list|) == a.len && Different(list, |list|)
            && forall k: nat | k < |list| :: Plain(list[k]) && InTurn(a, list, k)
  {
    hide MapOk, Rem, Offset, IndexAt, AcceptedUpTo, InTurn, Plain, Different;
    var n := |list|;
    if Accepted(a, list) {
      AcceptedDifferent(a, list);
      Consecutive(a, list, n);
      RemOnce(a.index + a.len, a.blocks);
      RemOnce(a.index + Offset(list, n), a.blocks);
      forall k: nat | k < n
        ensures Plain(list[k]) && InTurn(a, list, k)
      {
        AcceptedInTurn(a, list, k);
      }
    } else if && Offset(list, n) == a.len && Different(list, n)
              && forall k: nat | k < n :: Plain(list[k]) && InTurn(a, list, k) {
      InTurnAccepted(a, list, n);
    }
  }

  lemma AcceptedDifferent(a: Area, list: seq<Mapping>)
    requires a.index < a.blocks && Accepted(a, list)
    ensures Different(list, |list|) && AcceptedUpTo(a, list, |list|) && IndexAt(a, list, |list|) == a.next
  {
  }

  lemma AcceptedInTurn(a: Area, list: seq<Mapping>, k: nat)
    requires Sane(a) && a.len < a.blocks && Accepted(a, list) && k < |list|
    ensures Plain(list[k]) && InTurn(a, list, k)
  {
    hide Rem, Offset, IndexAt;
    StartsAt(a, list, k);
    assert AcceptedUpTo(a, list, k) && MapAt(a, list, k);
    Consecutive(a, list, k);
    RingOffset(a, Offset(list, k));
  }

  lemma {:induction false} InTurnAccepted(a: Area, list: seq<Mapping>, k: nat)
    requires Sane(a) && a.len < a.blocks && Offset(list, |list|) == a.len && Different(list, |list|) && k <= |list|
    requires forall j: nat | j < |list| :: Plain(list[j]) && InTurn(a, list, j)
    ensures AcceptedUpTo(a, list, k) && Offset(list, k) <= a.len && IndexAt(a, list, k) == Rem(a.index + Offset(list, k), a.blocks)
  {
    hide Rem, Offset, MapOk, IndexAt, Plain, InTurn, Blkcnt, Different;
    OffsetsGrow(list, k, |list|);
    if k == 0 {
      RemOnce(a.index, a.blocks);
      NoOffset(list);
      StartIndex(a);
      assert IndexAt(a, list, 0) == a.index by { IndexPrefix(a, [], list, 0); assert [] + list == list; }
      FewerDifferent(list, 0);
    } else {
      InTurnAccepted(a, list, k - 1);
      OffsetNext(list, k - 1);
      FewerDifferent(list, k);
      InTurnMap(a, list, k - 1);
      RemShift(a.index + Offset(list, k - 1), Blkcnt(list[k - 1]), a.blocks);
    }
  }

  lemma FewerDifferent(list: seq<Mapping>, k: nat)
    requires Different(list, |list|) && k <= |list|
    ensures Different(list, k)
  {
  }

  lemma InTurnMap(a: Area, list: seq<Mapping>, k: nat)
    requires a.index < a.blocks && a.len < a.blocks && k < |list| && Plain(list[k]) && InTurn(a, list, k)
    requires Offset(list, k) + Blkcnt(list[k]) <= a.len && IndexAt(a, list, k) == Rem(a.index + Offset(list, k), a.blocks)
    ensures MapAt(a, list, k) && IndexAt(a, list, k + 1) == Rem(IndexAt(a, list, k) + Blkcnt(list[k]), a.blocks)
  {
    hide Rem, Offset;
    RingOffset(a, Offset(list, k));
  }

  lemma NoOffset(list: seq<Mapping>)
    ensures Offset(list, 0) == 0
  {
  }

  // ----- The checker

  /** A checkpoint-mapping block: whether its header is sound, its transaction, its
      flags (1 marks the last block) and its mappings. */
  datatype MapBlock = MapBlock(sound: bool, xid: nat, flags: nat, maps: seq<Mapping>)

  class Checker {
    const area: Area
    var xid: nat
    var paddrs: map<nat, nat>    // the table of mappings, by object id
    ghost var list: seq<Mapping>

    ghost predicate Valid()
      reads this
    {
      && area.index < area.blocks && AcceptedUpTo(area, list, |list|)
      && (forall oid: nat :: oid in paddrs <==> HasOid(list, oid))
    }

    constructor (a: Area)
      requires a.index < a.blocks
      ensures area == a && list == [] && xid == 0 && Valid()
    {
      area, xid, paddrs, list := a, 0, map[], [];
    }

    method ParseMap(m: Mapping, idx: nat) returns (ok: bool, next: nat)
      requires Valid() && idx == IndexAt(area, list, |list|)
      modifies this`paddrs, this`list
      ensures ok <==> AcceptedUpTo(area, old(list) + [m], |old(list)| + 1)
      ensures ok ==> Valid() && list == old(list) + [m] && next == IndexAt(area, list, |list|)
    {
      hide MapOk, AcceptedUpTo, IndexAt, Rem;
      AcceptedMore(area, list, m);
      next := idx;
      if m.oid in paddrs || !MapOk(area, m, idx) {
        return false, next;
      }
      forall oid: nat
        ensures HasOid(list + [m], oid) <==> oid == m.oid || HasOid(list, oid)
      {
        Mapped(list, m, oid);
      }
      paddrs := paddrs[m.oid := m.paddr];
      list := list + [m];
      next := Rem(idx + Blkcnt(m), area.blocks);
      ok := true;
    }

    /** The mappings of one block. */
    method ParseMaps(maps: seq<Mapping>, idx: nat) returns (ok: bool, next: nat)
      requires Valid() && idx == IndexAt(area, list, |list|)
      modifies this`paddrs, this`list
      ensures ok <==> AcceptedUpTo(area, old(list) + maps, |old(list) + maps|)
      ensures ok ==> Valid() && list == old(list) + maps && next == IndexAt(area, list, |list|)
    {
      hide AcceptedUpTo, IndexAt, HasOid;
      ghost var before := list;
      assert before + maps[..0] == before;
      next := idx;
      for i := 0 to |maps|
        invariant Valid() && next == IndexAt(area, list, |list|) && list == before + maps[..i]
      {
        ghost var longer := list + [maps[i]];
        assert longer == before + maps[..i + 1];
        ok, next := ParseMap(maps[i], next);
        if !ok {
          assert before + maps == longer + maps[i + 1..];
          if AcceptedUpTo(area, before + maps, |before + maps|) {
            AcceptedPrefix(area, longer, maps[i + 1..]);
          }
          return false, next;
        }
      }
      assert maps[..|maps|] == maps;
      ok := true;
    }

    /** parse_cpoint_map_blocks(): reads blocks around the ring of descriptors, up
        to the last one. */
    method ParseBlocks(desc: nat -> MapBlock, descBlocks: nat, first: nat) returns (ok: bool, count: nat, index: nat)
      requires Valid() && list == [] && xid == 0 && first < descBlocks
      modifies this
      ensures ok <==> exists n: nat :: Checkpoint(area, desc, descBlocks, first, n)
      ensures ok ==> Checkpoint(area, desc, descBlocks, first, count) && index == DescIndex(first, count, descBlocks)
      ensures ok ==> list == AllMaps(desc, descBlocks, first, count) && xid == desc(first).xid
    {
      hide AcceptedUpTo, IndexAt, Rem, AllMaps, DescIndex, HasOid, Checkpoint;
      var idx := area.index;
      StartIndex(area);
      FirstDesc(desc, descBlocks, first);
      count, index := 0, first;
      while true
        invariant Valid() && idx == IndexAt(area, list, |list|) && index < descBlocks && count < descBlocks
        invariant list == AllMaps(desc, descBlocks, first, count) && index == DescIndex(first, count, descBlocks)
        invariant xid == if count == 0 then 0 else desc(first).xid
        invariant count > 0 ==> xid != 0
        invariant forall k: nat | k < count :: BlockAt(desc, descBlocks, first, k, 0)
        decreases descBlocks - count
      {
        var b := desc(index);
        NextDesc(desc, descBlocks, first, count);
        NotThere(area, desc, descBlocks, first, count);
        if !b.sound || (xid != 0 && b.xid != xid) || b.xid == 0 || |b.maps| > MAX_MAPS {
          return false, count, index;
        }
        xid := b.xid;
        ok, idx := ParseMaps(b.maps, idx);
        if !ok {
          return false, count, index;
        }
        count := count + 1;
        index := if index + 1 == descBlocks then 0 else index + 1;
        if b.flags > 1 {
          return false, count, index;
        }
        if b.flags == 1 {
          break;
        }
        if count == descBlocks {
          NotLast(area, desc, descBlocks, first);
          return false, count, index;
        }
      }
      LastBlock(area, desc, descBlocks, first, count, list);
      ok := idx == area.next;
    }
  }

  /** The k-th block that is read can be one of the checkpoint. */
  ghost predicate BlockAt(desc: nat -> MapBlock, n: nat, first: nat, k: nat, flags: nat)
    requires first < n
  {
    var b := desc(DescIndex(first, k, n));
    b.sound && b.xid == desc(first).xid && b.xid != 0 && |b.maps| <= MAX_MAPS && b.flags == flags
  }

  /** The first `count` blocks from an index on are those of a checkpoint: only the
      last one is marked as such, and all the mappings in them are accepted. */
  ghost predicate Checkpoint(a: Area, desc: nat -> MapBlock, n: nat, first: nat, count: nat)
    requires a.index < a.blocks && first < n
  {
    && 0 < count <= n
    && (forall k: nat | k < count - 1 :: BlockAt(desc, n, first, k, 0)) && BlockAt(desc, n, first, count - 1, 1)
    && Accepted(a, AllMaps(desc, n, first, count))
  }

  lemma FirstDesc(desc: nat -> MapBlock, n: nat, first: nat)
    requires first < n
    ensures DescIndex(first, 0, n) == first && AllMaps(desc, n, first, 0) == []
  {
  }

  lemma NextDesc(desc: nat -> MapBlock, n: nat, first: nat, k: nat)
    requires first < n
    ensures var i := DescIndex(first, k, n); DescIndex(first, k + 1, n) == if i + 1 == n then 0 else i + 1
    ensures AllMaps(desc, n, first, k + 1) == AllMaps(desc, n, first, k) + desc(DescIndex(first, k, n)).maps
  {
  }

  lemma {:induction false} MapsPrefix(desc: nat -> MapBlock, n: nat, first: nat, k: nat, m: nat) returns (more: seq<Mapping>)
    requires first < n && k <= m
    ensures AllMaps(desc, n, first, m) == AllMaps(desc, n, first, k) + more
    decreases m
  {
    more := [];
    if k < m {
      var less := MapsPrefix(desc, n, first, k, m - 1);
      more := less + desc(DescIndex(first, m - 1, n)).maps;
    }
  }

  lemma AcceptedPrefix(a: Area, list: seq<Mapping>, more: seq<Mapping>)
    requires a.index < a.blocks && AcceptedUpTo(a, list + more, |list + more|)
    ensures AcceptedUpTo(a, list, |list|)
  {
    hide IndexAt, MapOk;
    var longer := list + more;
    forall i: nat | i < |list|
      ensures MapAt(a, list, i)
    {
      assert MapAt(a, longer, i);
      IndexPrefix(a, list, more, i);
    }
    assert Different(longer, |longer|);
    assert forall i: nat | i < |list| :: longer[i] == list[i];
  }

  /** After `count` blocks that are not marked as the last one: a checkpoint takes
      the next one, and accepts its mappings. */
  lemma NotThere(a: Area, desc: nat -> MapBlock, n: nat, first: nat, count: nat)
    requires a.index < a.blocks && first < n && forall k: nat | k < count :: BlockAt(desc, n, first, k, 0)
    ensures forall m: nat | Checkpoint(a, desc, n, first, m) ::
              && count < m && (BlockAt(desc, n, first, count, 0) || (BlockAt(desc, n, first, count, 1) && m == count + 1))
              && var list := AllMaps(desc, n, first, count + 1); AcceptedUpTo(a, list, |list|)
  {
    hide AllMaps, AcceptedUpTo, IndexAt, DescIndex;
    forall m: nat | Checkpoint(a, desc, n, first, m)
      ensures && count < m && (BlockAt(desc, n, first, count, 0) || (BlockAt(desc, n, first, count, 1) && m == count + 1))
              && var list := AllMaps(desc, n, first, count + 1); AcceptedUpTo(a, list, |list|)
    {
      assert BlockAt(desc, n, first, m - 1, 1) && (m <= count ==> BlockAt(desc, n, first, m - 1, 0));
      var more := MapsPrefix(desc, n, first, count + 1, m);
      AcceptedPrefix(a, AllMaps(desc, n, first, count + 1), more);
    }
  }

  lemma NotLast(a: Area, desc: nat -> MapBlock, n: nat, first: nat)
    requires a.index < a.blocks && first < n && forall k: nat | k < n :: BlockAt(desc, n, first, k, 0)
    ensures forall m: nat :: !Checkpoint(a, desc, n, first, m)
  {
    hide Accepted, AllMaps, BlockAt;
    NotThere(a, desc, n, first, n);
  }

  lemma LastBlock(a: Area, desc: nat -> MapBlock, n: nat, first: nat, count: nat, list: seq<Mapping>)
    requires a.index < a.blocks && first < n && 0 < count <= n && forall k: nat | k < count - 1 :: BlockAt(desc, n, first, k, 0)
    requires BlockAt(desc, n, first, count - 1, 1) && list == AllMaps(desc, n, first, count) && AcceptedUpTo(a, list, |list|)
    ensures Checkpoint(a, desc, n, first, count) <==> IndexAt(a, list, |list|) == a.next
    ensures forall m: nat | Checkpoint(a, desc, n, first, m) :: m == count
  {
    hide AllMaps, AcceptedUpTo, IndexAt, DescIndex;
    NotThere(a, desc, n, first, count - 1);
    forall m: nat | Checkpoint(a, desc, n, first, m)
      ensures m == count
    {
    }
  }

  lemma StartIndex(a: Area)
    requires a.index < a.blocks
    ensures IndexAt(a, [], 0) == a.index
  {
  }

  ghost predicate HasOid(list: seq<Mapping>, oid: nat)
  {
    exists k: nat :: k < |list| && list[k].oid == oid
  }

  lemma Mapped(list: seq<Mapping>, m: Mapping, oid: nat)
    ensures HasOid(list + [m], oid) <==> oid == m.oid || HasOid(list, oid)
  {
    var longer := list + [m];
    if oid == m.oid {
      assert longer[|list|].oid == oid;
    } else if k: nat :| k < |list| && list[k].oid == oid {
      assert longer[k].oid == oid;
    }
  }

  /** The place of the k-th descriptor block that is read. */
  function DescIndex(first: nat, k: nat, n: nat): (r: nat)
    requires first < n
    ensures r < n
  {
    if k == 0 then first
    else
      var before := DescIndex(first, k - 1, n);
      if before + 1 == n then 0 else before + 1
  }

  function AllMaps(desc: nat -> MapBlock, n: nat, first: nat, k: nat): (s: seq<Mapping>)
    requires first < n
  {
    if k == 0 then [] else AllMaps(desc, n, first, k - 1) + desc(DescIndex(first, k - 1, n)).maps
  }

  // ----- When the valid part is the whole ring

  lemma NoneAccepted(a: Area)
    requires a.index < a.blocks
    ensures AcceptedUpTo(a, [], 0) && IndexAt(a, [], 0) == Rem(a.index, a.blocks)
  {
  }

  lemma {:induction false} OffsetPrefix(list: seq<Mapping>, more: seq<Mapping>, k: nat)
    requires k <= |list|
    ensures Offset(list + more, k) == Offset(list, k)
  {
    if k > 0 {
      OffsetPrefix(list, more, k - 1);
    }
  }

  lemma {:induction false} RingAgain(a: Area, o: nat, n: nat)
    requires a.index < a.blocks
    ensures RingBlocks(a, o + a.blocks, n) == RingBlocks(a, o, n)
    decreases n
  {
    if n > 0 {
      RingAgain(a, o, n - 1);
      assert Rem(a.index + (o + a.blocks) + n - 1, a.blocks) == Rem(a.index + o + n - 1, a.blocks);
    }
  }

  /** A mapping of the space manager that takes the whole ring. */
  function WholeRing(a: Area, oid: nat): Mapping
  {
    Mapping(oid, a.base + a.index, SPACEMAN, a.blocks * 4096, 0, 0)
  }

  lemma WholeRingOk(a: Area, list: seq<Mapping>, oid: nat)
    requires Sane(a) && a.len == a.blocks && a.base > 0
    requires AcceptedUpTo(a, list, |list|) && IndexAt(a, list, |list|) == a.index && forall i: nat | i < |list| :: list[i].oid != oid
    ensures var longer := list + [WholeRing(a, oid)];
            && AcceptedUpTo(a, longer, |longer|) && IndexAt(a, longer, |longer|) == a.index
            && Offset(longer, |longer|) == Offset(list, |list|) + a.blocks
  {
    hide AcceptedUpTo, IndexAt, Rem;
    var m := WholeRing(a, oid);
    AcceptedMore(a, list, m);
    OffsetPrefix(list, [m], |list|);
    RemOnce(a.blocks, a.blocks);
    RemOnce(a.index + a.blocks, a.blocks);
  }

  /** The descriptor blocks of the counterexamples: the first one is the last. */
  function OneBlock(maps: seq<Mapping>): (desc: nat -> MapBlock)
  {
    _ => MapBlock(true, 1, 1, maps)
  }

  lemma OneBlockIs(a: Area, maps: seq<Mapping>, n: nat, first: nat)
    requires a.index < a.blocks && first < n && |maps| <= MAX_MAPS && Accepted(a, maps)
    ensures Checkpoint(a, OneBlock(maps), n, first, 1) && AllMaps(OneBlock(maps), n, first, 1) == maps
  {
    hide Accepted;
    var desc := OneBlock(maps);
    FirstDesc(desc, n, first);
    NextDesc(desc, n, first, 0);
    assert desc(first).maps == maps && BlockAt(desc, n, first, 0, 1);
    assert AllMaps(desc, n, first, 1) == maps;
  }

  /** Then a checkpoint with two mappings that both take the whole ring is accepted;
      the size of a mapping has 32 bits. */
  lemma WholeRingOverlaps(a: Area, n: nat, first: nat)
    requires Sane(a) && a.len == a.blocks && a.base > 0 && a.blocks * 4096 < 0x1_0000_0000 && first < n
    ensures var list := [WholeRing(a, 1), WholeRing(a, 2)];
            && Checkpoint(a, OneBlock(list), n, first, 1) && AllMaps(OneBlock(list), n, first, 1) == list
            && list[0].size == list[1].size < 0x1_0000_0000
            && MappingBlocks(a, list, 0) == MappingBlocks(a, list, 1) == RingBlocks(a, 0, a.blocks)
            && Offset(list, |list|) == 2 * a.blocks
  {
    hide AcceptedUpTo, IndexAt, Rem, RingBlocks, Checkpoint, AllMaps;
    var one, list := [WholeRing(a, 1)], [WholeRing(a, 1), WholeRing(a, 2)];
    NoneAccepted(a);
    RemOnce(a.index, a.blocks);
    assert [] + one == one && one + [WholeRing(a, 2)] == list;
    WholeRingOk(a, [], 1);
    WholeRingOk(a, one, 2);
    RemOnce(a.index + a.blocks, a.blocks);
    OneBlockIs(a, list, n, first);
    RingAgain(a, 0, a.blocks);
  }

  /** And so is one with no mappings at all, for rings of any size. */
  lemma EmptyRing(a: Area, n: nat, first: nat)
    requires Sane(a) && a.len == a.blocks && first < n
    ensures Checkpoint(a, OneBlock([]), n, first, 1) && AllMaps(OneBlock([]), n, first, 1) == []
  {
    hide AcceptedUpTo, IndexAt, Rem, Checkpoint, AllMaps;
    NoneAccepted(a);
    RemOnce(a.index, a.blocks);
    RemOnce(a.index + a.blocks, a.blocks);
    OneBlockIs(a, [], n, first);
  }

  /** So the mappings of all accepted checkpoints add up to the valid length exactly
      when that is not the whole ring. */
  lemma TilesUnlessWhole(a: Area, n: nat, first: nat)
    requires Sane(a) && first < n
    ensures a.len < a.blocks <==>
            forall desc: nat -> MapBlock, count: nat | Checkpoint(a, desc, n, first, count) ::
              Offset(AllMaps(desc, n, first, count), |AllMaps(desc, n, first, count)|) == a.len
  {
    hide Accepted, Offset, AllMaps;
    if a.len < a.blocks {
      forall desc: nat -> MapBlock, count: nat | Checkpoint(a, desc, n, first, count)
        ensures Offset(AllMaps(desc, n, first, count), |AllMaps(desc, n, first, count)|) == a.len
      {
        MappingsTile(a, AllMaps(desc, n, first, count));
      }
    } else {
      EmptyRing(a, n, first);
      NoBlocks();
    }
  }

  lemma NoBlocks()
    ensures Offset([], 0) == 0
  {
  }
}
