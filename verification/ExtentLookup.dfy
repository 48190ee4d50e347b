/** Lookups in the extent reference trees of the snapshots, from the most recent
    one on (apfsck/btree.c:1772-1819): they find an extent that holds a block
    whenever there is one. */
module ExtentLookup {
  import opened Prelude
  import opened BtreeKeys
  import opened Btree
  import opened BtreeQuery

  const EXTENT: nat := 2
  const VALUE_SIZE: nat := 20

  /** The key of an extent, and of the query for a block. */
  function ExtentKey(id: nat): Key { Key(id, EXTENT, 0, None) }

  /** What the checks on each record of an extent reference tree leave. */
  ghost predicate ExtentRecord(r: Record)
  {
    r.key == ExtentKey(r.key.id) && r.vlen == VALUE_SIZE && r.blocks > 0
  }

  ghost predicate AllExtents(s: seq<Record>)
  {
    forall i: nat | i < |s| :: ExtentRecord(s[i])
  }

  datatype Tree = Tree(disk: Disk, root: Node)
  {
    ghost function All(): seq<Record> { Records(disk, root) }

    /** The tree was accepted by the checker, and is not too deep to query. */
    ghost predicate Good()
    {
      disk.extentref && Accepted(disk, root) && root.level < 12 && AllExtents(All())
    }

    ghost predicate Has(bno: nat)
    {
      exists i: nat :: i < |All()| && Holds(All()[i], bno)
    }
  }

  ghost predicate Holds(r: Record, bno: nat)
  {
    r.key.id <= bno < r.key.id + r.blocks
  }

  lemma ExtentOrder(a: nat, b: nat)
    ensures Le(ExtentKey(a), ExtentKey(b)) <==> a <= b
    ensures Lt(ExtentKey(a), ExtentKey(b)) <==> a < b
  {
  }

  /** Extents only meet at a block where the next one starts, so the last one that
      starts at or before a block holds it if any does. */
  lemma FoundHolds(t: Tree, bno: nat, r: Record)
    requires t.Good() && FoundIn(t.All(), ExtentKey(bno), r)
    ensures Holds(r, bno) <==> t.Has(bno)
  {
    hide Le, Lt, Accepted, Records;
    var s := t.All();
    var j: nat :| Chosen(s, ExtentKey(bno), j) && s[j] == r;
    assert ExtentRecord(s[j]);
    ExtentOrder(r.key.id, bno);
    if i: nat :| i < |s| && Holds(s[i], bno) {
      assert ExtentRecord(s[i]);
      ExtentOrder(bno, s[i].key.id);
      if r.key.id < bno && i < j {
        EndsBefore(t, i, j);
      }
    }
  }

  lemma EndsBefore(t: Tree, i: nat, j: nat)
    requires t.Good() && i < j < |t.All()|
    ensures t.All()[i].key.id + t.All()[i].blocks - 1 <= t.All()[j].key.id
  {
    hide Le, Records, Runs, Shaped, StrictLeaves;
    var s := t.All();
    RunsPair(t.disk, Zero, s, i, j);
    assert ExtentRecord(s[i]) && ExtentRecord(s[j]);
    ExtentOrder(s[i].key.id + s[i].blocks - 1, s[j].key.id);
  }

  lemma NoneHolds(t: Tree, bno: nat)
    requires t.Good() && AllAbove(t.All(), ExtentKey(bno))
    ensures !t.Has(bno)
  {
    hide Lt, Accepted, Records;
    var s := t.All();
    forall i: nat | i < |s|
      ensures !Holds(s[i], bno)
    {
      assert ExtentRecord(s[i]);
      ExtentOrder(bno, s[i].key.id);
    }
  }

  /** extentref_tree_lookup(), with the test of the range that its caller makes. */
  method TreeLookup(t: Tree, bno: nat) returns (r: Option<Record>)
    requires t.Good()
    ensures r.Some? <==> t.Has(bno)
    ensures r.Some? ==> r.value in t.All() && Holds(r.value, bno)
  {
    hide Accepted, Records, Best, AllAbove, FoundIn, Scan;
    var q := new Query(t.disk, t.root, ExtentKey(bno), false);
    var a := q.Run(t.root);
    match a
    case Reported =>
      NeverReported(t);
      assert false;
    case NoData =>
      NoneHolds(t, bno);
      r := None;
    case Found(node, index) =>
      var rec := node.records[index];
      FoundHolds(t, bno, rec);
      IsThere(t.All(), ExtentKey(bno), rec);
      r := if rec.key.id <= bno && rec.key.id + rec.blocks > bno then Some(rec) else None;
  }

  lemma IsThere(s: seq<Record>, target: Key, r: Record)
    requires FoundIn(s, target, r)
    ensures r in s
  {
  }

  lemma NeverReported(t: Tree)
    requires t.Good()
    ensures t.root.level < 12 && !exists i: nat :: i < |Records(t.disk, t.root)| && Records(t.disk, t.root)[i].vlen == 0
  {
    hide Accepted, Records;
    var s := Records(t.disk, t.root);
    forall i: nat | i < |s|
      ensures s[i].vlen != 0
    {
      assert ExtentRecord(t.All()[i]);
    }
  }

  /** extentref_update_lookup(): the extent comes from the most recent snapshot
      that has one for the block; it reports exactly when none has. */
  method UpdateLookup(trees: seq<Tree>, bno: nat) returns (r: Option<Record>, ghost k: nat)
    requires forall i: nat | i < |trees| :: trees[i].Good()
    ensures r.Some? <==> exists i: nat :: i < |trees| && trees[i].Has(bno)
    ensures r.Some? ==>
              && k < |trees| && r.value in trees[k].All() && Holds(r.value, bno)
              && forall i: nat | i < k :: !trees[i].Has(bno)
  {
    k := 0;
    for i := 0 to |trees|
      invariant forall j: nat | j < i :: !trees[j].Has(bno)
    {
      r := TreeLookup(trees[i], bno);
      if r.Some? {
        k := i;
        return;
      }
    }
    r := None;
  }

  // ----- When the extents of a tree are disjoint

  /** The leaves below a node, from left to right. */
  ghost function Leaves(d: Disk, n: Node): (l: seq<seq<Record>>)
    decreases n.level, |n.records| + 1
  {
    if n.leaf then [n.records] else LeavesFrom(d, n, 0)
  }

  ghost function LeavesFrom(d: Disk, n: Node, i: nat): (l: seq<seq<Record>>)
    requires i <= |n.records|
    decreases n.level, |n.records| - i
  {
    if i == |n.records| then []
    else (match Child(d, n, i) case None => [] case Some(c) => Leaves(d, c)) + LeavesFrom(d, n, i + 1)
  }

  function Joined(l: seq<seq<Record>>): (s: seq<Record>)
  {
    if l == [] then [] else Joined(l[..|l| - 1]) + l[|l| - 1]
  }

  lemma {:induction false} JoinedConcat(a: seq<seq<Record>>, b: seq<seq<Record>>)
    ensures Joined(a + b) == Joined(a) + Joined(b)
    decreases |b|
  {
    if b == [] {
      assert a + b == a;
    } else {
      var front := b[..|b| - 1];
      assert (a + b)[..|a + b| - 1] == a + front;
      JoinedConcat(a, front);
    }
  }

  lemma {:induction false} LeavesJoin(d: Disk, n: Node)
    ensures Joined(Leaves(d, n)) == Records(d, n)
    decreases n.level, |n.records| + 1
  {
    if n.leaf {
      assert Joined([n.records]) == [] + n.records;
    } else {
      LeavesJoinFrom(d, n, 0);
    }
  }

  lemma {:induction false} LeavesJoinFrom(d: Disk, n: Node, i: nat)
    requires !n.leaf && i <= |n.records|
    ensures Joined(LeavesFrom(d, n, i)) == RecordsFrom(d, n, i)
    decreases n.level, |n.records| - i
  {
    hide Child;
    if i < |n.records| {
      LeavesJoinFrom(d, n, i + 1);
      match Child(d, n, i)
      case None =>
        assert [] + LeavesFrom(d, n, i + 1) == LeavesFrom(d, n, i + 1);
      case Some(c) =>
        LeavesJoin(d, c);
        JoinedConcat(Leaves(d, c), LeavesFrom(d, n, i + 1));
    }
  }

  /** Inside a leaf an extent starts after the last block of the one before it. */
  ghost predicate Separate(leaf: seq<Record>)
  {
    forall i: nat | 0 < i < |leaf| :: Last(leaf[i - 1]) < leaf[i].key.id
  }

  function Last(r: Record): int
  {
    r.key.id + r.blocks - 1
  }

  lemma {:induction false} LeavesSeparate(d: Disk, n: Node, k: nat)
    requires d.extentref && Shaped(d, n) && StrictLeaves(d, n) && AllExtents(Records(d, n)) && k < |Leaves(d, n)|
    requires |n.records| > 0
    ensures Separate(Leaves(d, n)[k]) && Leaves(d, n)[k] != []
    decreases n.level, |n.records| + 1
  {
    if n.leaf {
      LeafRecords(d, n);
      LeafSeparate(d, n);
    } else {
      LeavesSeparateFrom(d, n, 0, k);
    }
  }

  lemma LeafSeparate(d: Disk, n: Node)
    requires d.extentref && n.leaf && StrictLeaves(d, n) && AllExtents(n.records)
    ensures Separate(n.records)
  {
    hide Lt;
    forall i: nat | 0 < i < |n.records|
      ensures Last(n.records[i - 1]) < n.records[i].key.id
    {
      assert StrictAt(d, n, i);
      var a, b := n.records[i - 1], n.records[i];
      assert ExtentRecord(a) && ExtentRecord(b);
      ExtentOrder(a.key.id + a.blocks - 1, b.key.id);
    }
  }

  lemma {:induction false} LeavesSeparateFrom(d: Disk, n: Node, i: nat, k: nat)
    requires d.extentref && !n.leaf && i <= |n.records| && ShapedFrom(d, n, i) && StrictFrom(d, n, i)
    requires AllExtents(RecordsFrom(d, n, i)) && k < |LeavesFrom(d, n, i)|
    ensures Separate(LeavesFrom(d, n, i)[k]) && LeavesFrom(d, n, i)[k] != []
    decreases n.level, |n.records| - i
  {
    hide Separate, Child, AllExtents;
    if i < |n.records| {
      FromStep(d, n, i);
      ShapedHas(d, n, i);
      var c := Child(d, n, i).value;
      var here := Leaves(d, c);
      ExtentParts(Records(d, c), RecordsFrom(d, n, i + 1));
      if k < |here| {
        LeavesSeparate(d, c, k);
      } else {
        LeavesSeparateFrom(d, n, i + 1, k - |here|);
      }
    }
  }

  lemma ShapedHas(d: Disk, n: Node, i: nat)
    requires !n.leaf && i < |n.records| && ShapedAt(d, n, i)
    ensures Child(d, n, i).Some? && Shaped(d, Child(d, n, i).value) && |Child(d, n, i).value.records| > 0
  {
  }

  lemma ExtentParts(a: seq<Record>, b: seq<Record>)
    requires AllExtents(a + b)
    ensures AllExtents(a) && AllExtents(b)
  {
    hide ExtentRecord;
    forall i: nat | i < |a|
      ensures ExtentRecord(a[i])
    {
      assert (a + b)[i] == a[i];
    }
    forall i: nat | i < |b|
      ensures ExtentRecord(b[i])
    {
      assert (a + b)[|a| + i] == b[i];
    }
  }

  /** No block is in two records. */
  ghost predicate DisjointExtents(s: seq<Record>)
  {
    forall i: nat, j: nat, b: nat | i < j < |s| :: !(Holds(s[i], b) && Holds(s[j], b))
  }

  /** Each record starts at or after the last block of all earlier ones. */
  ghost predicate Follow(s: seq<Record>)
  {
    forall i: nat, j: nat | i < j < |s| :: Last(s[i]) <= s[j].key.id
  }

  /** Leaf k does not start with the last block of the leaf before it. */
  ghost predicate Gap(l: seq<seq<Record>>, k: nat)
    requires 0 < k < |l|
  {
    l[k - 1] != [] && l[k] != [] ==> Last(l[k - 1][|l[k - 1]| - 1]) != l[k][0].key.id
  }

  ghost predicate Gaps(l: seq<seq<Record>>)
  {
    forall k: nat | 0 < k < |l| :: Gap(l, k)
  }

  lemma OneLeaf(s: seq<Record>)
    requires Separate(s) && Follow(s) && AllExtents(s)
    ensures DisjointExtents(s)
  {
    forall i: nat, j: nat, b: nat | i < j < |s|
      ensures !(Holds(s[i], b) && Holds(s[j], b))
    {
      assert Last(s[j - 1]) < s[j].key.id && ExtentRecord(s[j - 1]);
      assert i < j - 1 ==> Last(s[i]) <= s[j - 1].key.id;
    }
  }

  /** Two parts, the second of which starts with x. */
  lemma TwoParts(a: seq<Record>, b: seq<Record>)
    requires a != [] && b != [] && Follow(a + b) && AllExtents(a + b)
    ensures DisjointExtents(a + b) <==> DisjointExtents(a) && DisjointExtents(b) && Last(a[|a| - 1]) != b[0].key.id
  {
    hide Holds;
    var s, n := a + b, |a|;
    if DisjointExtents(s) {
      forall i: nat, j: nat, x: nat | i < j < |b|
        ensures !(Holds(b[i], x) && Holds(b[j], x))
      {
        assert b[i] == s[n + i] && b[j] == s[n + j];
      }
      forall i: nat, j: nat, x: nat | i < j < |a|
        ensures !(Holds(a[i], x) && Holds(a[j], x))
      {
        assert a[i] == s[i] && a[j] == s[j];
      }
      MeetAt(s, n);
    } else if DisjointExtents(a) && DisjointExtents(b) && Last(a[n - 1]) != b[0].key.id {
      forall i: nat, j: nat, x: nat | i < j < |s|
        ensures !(Holds(s[i], x) && Holds(s[j], x))
      {
        if j < n {
          assert s[i] == a[i] && s[j] == a[j];
        } else if i >= n {
          assert s[i] == b[i - n] && s[j] == b[j - n];
        } else {
          Across(s, n, i, j, x);
        }
      }
    }
  }

  lemma MeetAt(s: seq<Record>, n: nat)
    requires 0 < n < |s| && DisjointExtents(s) && AllExtents(s)
    ensures Last(s[n - 1]) != s[n].key.id
  {
    assert ExtentRecord(s[n - 1]) && ExtentRecord(s[n]);
    var b := s[n].key.id;
    assert !(Holds(s[n - 1], b) && Holds(s[n], b));
  }

  lemma Across(s: seq<Record>, n: nat, i: nat, j: nat, x: nat)
    requires i < n <= j < |s| && Follow(s) && AllExtents(s) && Last(s[n - 1]) != s[n].key.id
    ensures !(Holds(s[i], x) && Holds(s[j], x))
  {
    assert ExtentRecord(s[n - 1]) && ExtentRecord(s[n]);
    assert Last(s[n - 1]) <= s[n].key.id;
    assert i < n - 1 ==> Last(s[i]) <= s[n - 1].key.id;
    assert n < j ==> Last(s[n]) <= s[j].key.id;
  }

  /** A list of leaves is free of overlaps exactly when its leaves leave gaps. */
  lemma {:induction false} DisjointLeaves(l: seq<seq<Record>>)
    requires Follow(Joined(l)) && AllExtents(Joined(l)) && forall k: nat | k < |l| :: Separate(l[k]) && l[k] != []
    ensures DisjointExtents(Joined(l)) <==> Gaps(l)
    decreases |l|
  {
    hide DisjointExtents, Separate;
    if |l| == 0 {
      assert DisjointExtents([]) by { OneLeaf([]); }
    } else {
      var front, last := l[..|l| - 1], l[|l| - 1];
      var a := Joined(front);
      FollowParts(a, last);
      ExtentParts(a, last);
      OneLeaf(last);
      if front == [] {
        assert Joined(l) == last;
      } else {
        assert front[|front| - 1] == l[|l| - 2];
        assert a == Joined(front[..|front| - 1]) + front[|front| - 1];
        TwoParts(a, last);
        DisjointLeaves(front);
        GapsMore(l);
      }
    }
  }

  lemma GapsMore(l: seq<seq<Record>>)
    requires |l| > 1
    ensures Gaps(l) <==> Gaps(l[..|l| - 1]) && Gap(l, |l| - 1)
  {
    var front := l[..|l| - 1];
    forall k: nat | 0 < k < |front|
      ensures Gap(front, k) == Gap(l, k)
    {
    }
  }

  lemma FollowParts(a: seq<Record>, b: seq<Record>)
    requires Follow(a + b)
    ensures Follow(a) && Follow(b)
  {
    var s := a + b;
    forall i: nat, j: nat | i < j < |a|
      ensures Last(a[i]) <= a[j].key.id
    {
      assert s[i] == a[i] && s[j] == a[j];
    }
    forall i: nat, j: nat | i < j < |b|
      ensures Last(b[i]) <= b[j].key.id
    {
      assert s[|a| + i] == b[i] && s[|a| + j] == b[j];
    }
  }

  /** The extents of an accepted tree are disjoint if and only if no leaf starts with
      the last block of the leaf before it. */
  lemma ExtentsDisjoint(t: Tree)
    requires t.Good()
    ensures DisjointExtents(t.All()) <==> Gaps(Leaves(t.disk, t.root))
  {
    hide DisjointExtents, Records, Leaves, Gaps, Separate, Shaped, StrictLeaves, Runs;
    var l := Leaves(t.disk, t.root);
    LeavesJoin(t.disk, t.root);
    if |t.root.records| == 0 {
      NoRecords(t.disk, t.root);
    } else {
      forall k: nat | k < |l|
        ensures Separate(l[k]) && l[k] != []
      {
        LeavesSeparate(t.disk, t.root, k);
      }
      var s := t.All();
      forall i: nat, j: nat | i < j < |s|
        ensures Last(s[i]) <= s[j].key.id
      {
        EndsBefore(t, i, j);
      }
      DisjointLeaves(l);
    }
  }

  lemma NoRecords(d: Disk, n: Node)
    requires |n.records| == 0
    ensures DisjointExtents(Records(d, n)) && Gaps(Leaves(d, n))
  {
    assert Records(d, n) == [];
  }
}
