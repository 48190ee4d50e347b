/** Two leaves of an extent reference tree that share a block, and that the
    checker accepts: both records are updates of an older extent
    (apfsck/btree.c:1011-1018, apfsck/extents.c:583-640). */
module ExtentTouch {
  import opened Prelude
  import opened BtreeKeys
  import opened Btree
  import opened ExtentLookup
  import A = Allocation
  import X = Extents

  /** A new extent of an older snapshot, with blocks 5 to 7. */
  const Older := X.PhysExt(20, X.NEW, 3, 16, 1, 5)

  /** One more reference for all of its blocks, and one more for the last. */
  const First := X.PhysExt(20, X.UPDATE, 3, U64 - 1, 1, 5)
  const Second := X.PhysExt(20, X.UPDATE, 1, U64 - 1, 1, 7)

  /** The record of the tree that holds a physical extent. */
  function AsRecord(r: X.PhysExt): Record
  {
    Record(ExtentKey(r.paddr), r.valueSize, 0, r.length, true)
  }

  const LeafA := Node(false, true, 0, [AsRecord(First)])
  const LeafB := Node(false, true, 0, [AsRecord(Second)])
  const Root := Node(true, false, 1, [Record(ExtentKey(5), 8, 1, 0, true), Record(ExtentKey(7), 8, 2, 0, true)])

  function Touching(): Tree
  {
    Tree(Disk(true, id => if id == 1 then Some(LeafA) else if id == 2 then Some(LeafB) else None), Root)
  }

  lemma TouchingRecords()
    ensures var d := Touching().disk;
            && Child(d, Root, 0) == Some(LeafA) && Child(d, Root, 1) == Some(LeafB)
            && Records(d, Root) == [AsRecord(First), AsRecord(Second)]
  {
    var d := Touching().disk;
    assert Child(d, Root, 0) == Some(LeafA) && Child(d, Root, 1) == Some(LeafB);
    assert Records(d, LeafA) == LeafA.records && Records(d, LeafB) == LeafB.records;
    assert RecordsFrom(d, Root, 2) == [];
    assert RecordsFrom(d, Root, 1) == LeafB.records;
  }

  lemma OneRecord(d: Disk, r: Record)
    requires r.sound && r.blocks > 0
    ensures Shaped(d, Node(false, true, 0, [r])) && StrictLeaves(d, Node(false, true, 0, [r]))
  {
    var n := Node(false, true, 0, [r]);
    assert ShapedAt(d, n, 0) && StrictAt(d, n, 0);
  }

  lemma TouchingShaped()
    ensures Shaped(Touching().disk, Root) && StrictLeaves(Touching().disk, Root)
  {
    var d := Touching().disk;
    TouchingRecords();
    OneRecord(d, AsRecord(First));
    OneRecord(d, AsRecord(Second));
    assert ShapedAt(d, Root, 0) && ShapedAt(d, Root, 1) && StrictAt(d, Root, 0) && StrictAt(d, Root, 1);
  }

  /** The order of the tree is accepted, although block 7 is in both leaves. */
  lemma LeavesMayTouch()
    ensures Touching().Good() && !DisjointExtents(Touching().All())
  {
    hide Shaped, StrictLeaves, Records;
    var d, s := Touching().disk, Touching().All();
    TouchingRecords();
    TouchingShaped();
    ExtentOrder(7, 7);
    assert RunsAt(d, Zero, s, 0) && RunsAt(d, Zero, s, 1);
    assert ExtentRecord(s[0]) && ExtentRecord(s[1]);
    assert ExtentLookup.Holds(s[0], 7) && ExtentLookup.Holds(s[1], 7);
  }

  /** extentref_update_lookup() in the tree of the older snapshot. */
  function InOlder(b: nat): Option<nat>
  {
    if 5 <= b <= 7 then Some(5) else None
  }

  /** The counts of blocks 5 to 7, with no other block in use. */
  ghost predicate Counts(t: X.Table, a: nat, b: nat, c: nat)
  {
    forall x: nat :: X.RefAt(t, x) ==
      if x == 5 then Some(a) else if x == 6 then Some(b) else if x == 7 then Some(c) else None
  }

  lemma AfterNew(t: X.Table, now: X.Table)
    requires t == map[] && X.Stepped(Older, t, now)
    ensures Counts(now, 1, 1, 1)
  {
    NothingThere();
    hide X.RefAt;
  }

  lemma AfterFirst(t: X.Table, now: X.Table)
    requires Counts(t, 1, 1, 1) && X.Stepped(First, t, now)
    ensures Counts(now, 2, 2, 2)
  {
    hide X.RefAt;
  }

  lemma AfterSecond(t: X.Table, now: X.Table)
    requires Counts(t, 2, 2, 2) && X.Stepped(Second, t, now)
    ensures Counts(now, 2, 2, 3)
  {
    hide X.RefAt;
  }

  lemma NothingThere()
    ensures forall b: nat :: X.RefAt(map[], b) == None
  {
  }

  lemma CanUpdate(t: X.Table, a: nat, r: X.PhysExt)
    requires Counts(t, a, a, a) && 5 <= r.paddr && r.paddr + r.length <= 8 && r.length > 0
    ensures X.Updatable(t, r.paddr, r.length, InOlder)
  {
    hide X.RefAt;
    X.HasRef(t, r.paddr);
    var s: nat :| X.Covers(t, s, r.paddr);
    if s < 5 {
      X.CoverRef(t, s, 4);
    }
  }

  /** Everything about the records themselves is accepted too, once the older extent
      was: the counts of the three blocks become 2, 2 and 3. */
  method RecordsAreAccepted() returns (v: X.Volume)
    ensures Counts(v.table, 2, 2, 3)
  {
    hide X.RefAt, X.Disjoint, X.Marked, X.Stepped, X.Updatable, Counts;
    var bitmap := new A.Bitmap(16);
    v := new X.Volume(bitmap, 17);
    var ok, last := v.ParsePhysExt(Older, InOlder);
    assert ok;
    AfterNew(map[], v.table);
    CanUpdate(v.table, 1, First);
    ghost var t := v.table;
    ok, last := v.ParsePhysExt(First, InOlder);
    assert ok;
    AfterFirst(t, v.table);
    CanUpdate(v.table, 2, Second);
    t := v.table;
    ok, last := v.ParsePhysExt(Second, InOlder);
    assert ok;
    AfterSecond(t, v.table);
  }
}
