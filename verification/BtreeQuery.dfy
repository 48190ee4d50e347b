/** Queries on an accepted b-tree: bisection in each node, one node per level
    (apfsck/btree.c:1975-2093). */
module BtreeQuery {
  import opened Prelude
  import opened BtreeKeys
  import opened Btree

  // ----- What a query is for

  /** r has the greatest key that does not come after the target. */
  ghost predicate Best(s: seq<Record>, target: Key, r: Record)
  {
    r in s && Le(r.key, target) && forall i: nat | i < |s| :: Le(s[i].key, r.key) || Lt(target, s[i].key)
  }

  ghost predicate AllAbove(s: seq<Record>, target: Key)
  {
    forall i: nat | i < |s| :: Lt(target, s[i].key)
  }

  /** A linear scan, which stops at the first key above the target. */
  function Scan(s: seq<Record>, target: Key): (r: Option<Record>)
  {
    if s == [] || Keycmp(s[0].key, target) > 0 then None
    else
      match Scan(s[1..], target)
      case None => Some(s[0])
      case Some(r) => Some(r)
  }

  lemma {:induction false} ScanIsBest(s: seq<Record>, target: Key)
    requires Sorted(s)
    ensures match Scan(s, target)
            case None => AllAbove(s, target)
            case Some(r) => Best(s, target, r)
  {
    hide Keycmp;
    if s == [] {
      return;
    }
    KeycmpFlips(target, s[0].key);
    KeycmpFlips(s[0].key, target);
    if Keycmp(s[0].key, target) > 0 {
      forall i: nat | i < |s|
        ensures Lt(target, s[i].key)
      {
        Above(target, s, 0, i);
      }
    } else {
      var t := s[1..];
      assert Sorted(t) by {
        forall i: nat, j: nat | i < j < |t|
          ensures Le(t[i].key, t[j].key)
        {
          assert Le(s[i + 1].key, s[j + 1].key);
        }
      }
      ScanIsBest(t, target);
      assert s == [s[0]] + t;
      KeycmpEqual(s[0].key, s[0].key);
      if Scan(t, target).Some? {
        var r := Scan(t, target).value;
        var k :| 0 <= k < |t| && t[k] == r;
        assert Le(s[0].key, s[k + 1].key);
      }
    }
  }

  /** On sorted records the scan tells everything: it finds nothing exactly when
      all keys are above the target, and any best record has the key it finds. */
  lemma ScanDecides(s: seq<Record>, target: Key)
    requires Sorted(s)
    ensures Scan(s, target).None? <==> AllAbove(s, target)
    ensures forall r :: Best(s, target, r) ==> Scan(s, target).Some? && Scan(s, target).value.key == r.key
  {
    hide Keycmp, Scan, Sorted;
    ScanIsBest(s, target);
    forall r | Best(s, target, r)
      ensures Scan(s, target).Some? && Scan(s, target).value.key == r.key
    {
      SameBest(s, target, r);
    }
    if Scan(s, target).Some? {
      var r := Scan(s, target).value;
      LeLtTotal(r.key, target);
    }
  }

  lemma SameBest(s: seq<Record>, target: Key, r: Record)
    requires Sorted(s) && Best(s, target, r)
    ensures Scan(s, target).Some? && Scan(s, target).value.key == r.key
  {
    hide Keycmp, Scan, Sorted;
    ScanIsBest(s, target);
    LeLtTotal(r.key, target);
    if Scan(s, target).Some? {
      var q := Scan(s, target).value;
      LeLtTotal(q.key, target);
      KeycmpFlips(q.key, r.key);
      KeycmpEqual(q.key, r.key);
    }
  }

  /** Keys after one above the target are above it too. */
  lemma Above(target: Key, s: seq<Record>, i: nat, j: nat)
    requires Sorted(s) && i <= j < |s| && Lt(target, s[i].key)
    ensures Lt(target, s[j].key)
  {
    hide Keycmp;
    if i < j {
      LtLeTransitive(target, s[i].key, s[j].key);
    }
  }

  // ----- One level down

  /** The records below child i, and those around them. */
  lemma {:induction false} Around(d: Disk, n: Node, from: nat, i: nat) returns (left: seq<Record>)
    requires !n.leaf && from <= i < |n.records| && Child(d, n, i).Some?
    ensures RecordsFrom(d, n, from) == left + Records(d, Child(d, n, i).value) + RecordsFrom(d, n, i + 1)
    decreases i - from
  {
    hide Child, Records;
    if from == i {
      left := [];
    } else {
      var rest := Around(d, n, from + 1, i);
      left := (match Child(d, n, from) case None => [] case Some(c) => Records(d, c)) + rest;
    }
  }

  lemma SortedParts(a: seq<Record>, b: seq<Record>, c: seq<Record>)
    requires Sorted(a + b + c)
    ensures Sorted(b) && Sorted(b + c)
    ensures forall i: nat, j: nat | i < |a| && j < |b| :: Le(a[i].key, b[j].key)
  {
    hide Le;
    var s := a + b + c;
    forall i: nat, j: nat | i < j < |b + c|
      ensures Le((b + c)[i].key, (b + c)[j].key)
    {
      assert s[|a| + i] == (b + c)[i] && s[|a| + j] == (b + c)[j];
    }
    forall i: nat, j: nat | i < j < |b|
      ensures Le(b[i].key, b[j].key)
    {
      assert b[i] == (b + c)[i] && b[j] == (b + c)[j];
    }
    forall i: nat, j: nat | i < |a| && j < |b|
      ensures Le(a[i].key, b[j].key)
    {
      assert s[i] == a[i] && s[|a| + j] == b[j];
    }
  }

  /** The first record below child i, with everything to its right, is sorted and
      starts with the key of record i. */
  lemma FromHere(d: Disk, n: Node, i: nat) returns (left: seq<Record>)
    requires !n.leaf && Shaped(d, n) && Sorted(Records(d, n)) && i < |n.records|
    ensures Child(d, n, i).Some?
    ensures Records(d, n) == left + Records(d, Child(d, n, i).value) + RecordsFrom(d, n, i + 1)
    ensures var s := Records(d, Child(d, n, i).value);
            |s| > 0 && s[0].key == n.records[i].key && Sorted(s) && Sorted(s + RecordsFrom(d, n, i + 1))
    ensures var s := Records(d, Child(d, n, i).value);
            forall k: nat | k < |left| :: Le(left[k].key, s[0].key)
  {
    hide Sorted, Le, RecordsFrom;
    assert ShapedAt(d, n, i);
    var c := Child(d, n, i).value;
    left := Around(d, n, 0, i);
    SortedParts(left, Records(d, c), RecordsFrom(d, n, i + 1));
    FirstRecord(d, c);
  }

  /** Index keys are in order, because the keys in the leaves are. */
  lemma IndexSorted(d: Disk, n: Node)
    requires Shaped(d, n) && Sorted(Records(d, n))
    ensures Sorted(n.records)
  {
    hide Le, Shaped, RecordsFrom;
    if !n.leaf {
      forall i: nat, j: nat | i < j < |n.records|
        ensures Le(n.records[i].key, n.records[j].key)
      {
        IndexPair(d, n, i, j);
      }
    } else {
      assert Records(d, n) == n.records by { LeafRecords(d, n); }
    }
  }

  lemma LeafRecords(d: Disk, n: Node)
    requires n.leaf
    ensures Records(d, n) == n.records
  {
  }

  lemma IndexPair(d: Disk, n: Node, i: nat, j: nat)
    requires !n.leaf && Shaped(d, n) && Sorted(Records(d, n)) && i < j < |n.records|
    ensures Le(n.records[i].key, n.records[j].key)
  {
    hide Le, Shaped, RecordsFrom, Records;
    var left := FromHere(d, n, i);
    var a, b := Records(d, Child(d, n, i).value), RecordsFrom(d, n, i + 1);
    var k := LaterStart(d, n, i + 1, j);
    var s := a + b;
    assert s[0].key == n.records[i].key && s[|a| + k].key == n.records[j].key;
  }

  lemma LaterStart(d: Disk, n: Node, from: nat, j: nat) returns (k: nat)
    requires !n.leaf && Shaped(d, n) && from <= j < |n.records|
    ensures k < |RecordsFrom(d, n, from)| && RecordsFrom(d, n, from)[k].key == n.records[j].key
  {
    hide RecordsFrom;
    assert ShapedAt(d, n, j);
    var c := Child(d, n, j).value;
    FirstRecord(d, c);
    var left := Around(d, n, from, j);
    k := |left|;
  }

  /** Where the search goes on: the last record not above the target, or one
      that equals it. */
  ghost predicate Chosen(rs: seq<Record>, target: Key, i: nat)
  {
    && i < |rs| && Le(rs[i].key, target)
    && (rs[i].key == target || forall j: nat | i < j < |rs| :: Lt(target, rs[j].key))
  }

  /** r is such a record, somewhere in s. */
  ghost predicate FoundIn(s: seq<Record>, target: Key, r: Record)
  {
    exists j: nat :: Chosen(s, target, j) && s[j] == r
  }

  lemma EqualAll(s: seq<Record>, target: Key, j: nat)
    requires Sorted(s) && j < |s| && s[0].key == target && Le(s[j].key, target)
    ensures s[j].key == target
  {
    hide Keycmp;
    if j > 0 {
      assert Le(s[0].key, s[j].key);
      LeLtTotal(target, s[j].key);
      KeycmpFlips(s[j].key, target);
      KeycmpEqual(s[j].key, target);
    }
  }

  /** Everything below the records after i is above the target, if those are. */
  lemma RightAbove(d: Disk, n: Node, target: Key, i: nat)
    requires !n.leaf && Shaped(d, n) && Sorted(Records(d, n)) && i <= |n.records|
    requires i < |n.records| ==> Lt(target, n.records[i].key)
    ensures AllAbove(RecordsFrom(d, n, i), target)
  {
    hide Keycmp, Shaped, Records, Lt, Le;
    if i < |n.records| {
      var left := FromHere(d, n, i);
      var s := RecordsFrom(d, n, i);
      assert s == Records(d, Child(d, n, i).value) + RecordsFrom(d, n, i + 1);
      forall k: nat | k < |s|
        ensures Lt(target, s[k].key)
      {
        Above(target, s, 0, k);
      }
    }
  }

  /** What is found below the chosen child is found in the whole tree. */
  lemma FoundBelow(d: Disk, n: Node, target: Key, i: nat, r: Record)
    requires !n.leaf && Shaped(d, n) && Sorted(Records(d, n)) && Chosen(n.records, target, i)
    requires Child(d, n, i).Some? && FoundIn(Records(d, Child(d, n, i).value), target, r)
    ensures FoundIn(Records(d, n), target, r)
  {
    hide Keycmp, Shaped, Records, RecordsFrom, Lt, Le, Sorted;
    var left := FromHere(d, n, i);
    var s, right := Records(d, Child(d, n, i).value), RecordsFrom(d, n, i + 1);
    var t := Records(d, n);
    var j: nat :| Chosen(s, target, j) && s[j] == r;
    assert t[|left| + j] == s[j];
    if n.records[i].key == target {
      EqualAll(s, target, j);
    } else {
      RightAbove(d, n, target, i + 1);
      forall k: nat | |left| + j < k < |t| && r.key != target
        ensures Lt(target, t[k].key)
      {
        if k < |left| + |s| {
          assert t[k] == s[k - |left|];
        } else {
          assert t[k] == right[k - |left| - |s|];
        }
      }
    }
    assert Chosen(t, target, |left| + j);
  }

  // ----- The search

  lemma Compared(rs: seq<Record>, target: Key, i: nat)
    requires Sorted(rs) && i < |rs|
    ensures var cmp := Keycmp(rs[i].key, target);
            && (cmp > 0 ==> forall j: nat | i <= j < |rs| :: Lt(target, rs[j].key))
            && (cmp <= 0 ==> Le(rs[i].key, target))
            && (cmp == 0 ==> rs[i].key == target)
  {
    hide Keycmp;
    KeycmpEqual(rs[i].key, target);
    LeLtTotal(rs[i].key, target);
    if Lt(target, rs[i].key) {
      forall j: nat | i <= j < |rs|
        ensures Lt(target, rs[j].key)
      {
        Above(target, rs, i, j);
      }
    }
  }

  lemma Emptied(rs: seq<Record>, target: Key, left: nat, index: nat)
    requires left == index <= |rs| && forall j: nat | index <= j < |rs| :: Lt(target, rs[j].key)
    requires left > 0 ==> left < |rs| && Keycmp(rs[left].key, target) <= 0
    ensures AllAbove(rs, target)
  {
    hide Keycmp;
    if left > 0 {
      LeLtTotal(rs[left].key, target);
    }
  }

  datatype Answer = Found(node: Node, index: nat) | NoData | Reported

  datatype Status = Success | Missing | Report

  ghost predicate Absent(s: seq<Record>, target: Key)
  {
    forall i: nat | i < |s| :: s[i].key != target
  }

  /** The answer for the whole tree is to be found below the current node. */
  ghost predicate Searching(d: Disk, root: Node, n: Node, depth: nat, target: Key)
  {
    && Shaped(d, n) && Sorted(Records(d, n)) && depth + n.level == root.level
    && (forall r :: FoundIn(Records(d, n), target, r) ==> FoundIn(Records(d, root), target, r))
    && (n == root || (|n.records| > 0 && Le(n.records[0].key, target)))
  }

  lemma ChosenIsBest(s: seq<Record>, target: Key, i: nat)
    requires Sorted(s) && Chosen(s, target, i)
    ensures Best(s, target, s[i])
  {
    hide Keycmp;
    forall j: nat | j < |s|
      ensures Le(s[j].key, s[i].key) || Lt(target, s[j].key)
    {
      if j == i {
        KeycmpEqual(s[i].key, s[i].key);
      } else if s[i].key == target {
        LeLtTotal(s[j].key, target);
      }
    }
  }

  lemma FoundIsBest(s: seq<Record>, target: Key, r: Record)
    requires Sorted(s) && FoundIn(s, target, r)
    ensures Best(s, target, r)
  {
    hide Sorted, Best, Le, Lt;
    var j: nat :| Chosen(s, target, j) && s[j] == r;
    ChosenIsBest(s, target, j);
  }

  lemma LeafFound(d: Disk, root: Node, n: Node, depth: nat, target: Key, i: nat)
    requires Searching(d, root, n, depth, target) && n.leaf && i < |n.records| && Chosen(n.records, target, i)
    ensures FoundIn(Records(d, root), target, n.records[i]) && n.records[i] in Records(d, root)
  {
    hide Keycmp, Shaped, Le;
    LeafRecords(d, n);
    assert FoundIn(n.records, target, n.records[i]);
  }

  lemma NothingBelow(d: Disk, n: Node, target: Key)
    requires Shaped(d, n) && Sorted(Records(d, n)) && AllAbove(n.records, target)
    ensures AllAbove(Records(d, n), target)
  {
    hide Keycmp, Shaped, Lt, Sorted;
    if n.leaf {
      LeafRecords(d, n);
    } else {
      RightAbove(d, n, target, 0);
    }
  }

  lemma Stop(d: Disk, root: Node, n: Node, depth: nat, target: Key, exact: bool, i: int)
    requires Searching(d, root, n, depth, target) && Sorted(Records(d, root))
    requires || AllAbove(n.records, target)
             || (exact && n.leaf && 0 <= i < |n.records| && Chosen(n.records, target, i) && n.records[i].key != target)
    ensures if exact then Absent(Records(d, root), target) else AllAbove(Records(d, root), target)
  {
    hide Keycmp, Shaped;
    var s := Records(d, root);
    if AllAbove(n.records, target) {
      if |n.records| > 0 {
        LeLtTotal(n.records[0].key, target);
      }
      assert n == root;
      NothingBelow(d, n, target);
      LeLtTotal(target, target);
      KeycmpEqual(target, target);
    } else {
      LeafFound(d, root, n, depth, target, i);
      var r := n.records[i];
      FoundIsBest(s, target, r);
      KeycmpEqual(r.key, target);
      LeLtTotal(target, target);
      KeycmpEqual(target, target);
      LeLtTotal(target, r.key);
    }
  }

  lemma ShapedChild(d: Disk, n: Node, i: nat)
    requires Shaped(d, n) && !n.leaf && i < |n.records|
    ensures n.records[i].vlen == 8 && ReadNode(d, n.records[i].child) == Child(d, n, i)
    ensures Child(d, n, i).Some? && Shaped(d, Child(d, n, i).value)
    ensures Child(d, n, i).value.records[0].key == n.records[i].key
  {
    assert ShapedAt(d, n, i);
  }

  lemma Below(d: Disk, root: Node, n: Node, depth: nat, target: Key, i: nat)
    requires Searching(d, root, n, depth, target) && !n.leaf && Chosen(n.records, target, i)
    ensures Child(d, n, i).Some? && Searching(d, root, Child(d, n, i).value, depth + 1, target)
    ensures n.records[i].vlen == 8 && ReadNode(d, n.records[i].child) == Child(d, n, i)
  {
    hide Keycmp, Le, Sorted, FoundIn, Records, RecordsFrom;
    ShapedChild(d, n, i);
    var c := Child(d, n, i).value;
    var left := FromHere(d, n, i);
    forall r | FoundIn(Records(d, c), target, r)
      ensures FoundIn(Records(d, root), target, r)
    {
      FoundBelow(d, n, target, i, r);
    }
  }

  class Query {
    const disk: Disk
    const key: Key
    const exact: bool
    var node: Node
    var index: int
    var depth: nat

    constructor (d: Disk, root: Node, target: Key, exactly: bool)
      ensures disk == d && key == target && exact == exactly && node == root && index == |root.records| && depth == 0
    {
      disk, key, exact := d, target, exactly;
      node, index, depth := root, |root.records|, 0;
    }

    /** Bisection in one node, for a query with a single match. */
    method Bisect() returns (cmp: int)
      requires index == |node.records| && Sorted(node.records)
      modifies this`index
      ensures cmp <= 0 ==> 0 <= index < |node.records| && Chosen(node.records, key, index) && cmp == Keycmp(node.records[index].key, key)
      ensures cmp > 0 ==> AllAbove(node.records, key)
    {
      hide Keycmp, Le, Lt;
      var rs := node.records;
      cmp := 1;
      var left, right := 0, 0;
      while true
        invariant cmp > 0 ==> 0 <= left <= index <= |rs| && forall j: nat | index <= j < |rs| :: Lt(key, rs[j].key)
        invariant cmp > 0 && left > 0 ==> left < |rs| && Keycmp(rs[left].key, key) <= 0
        invariant cmp <= 0 ==> 0 <= left <= index <= right < |rs| && left < right && cmp == Keycmp(rs[index].key, key) && cmp != 0
        invariant cmp <= 0 ==> forall j: nat | right < j < |rs| :: Lt(key, rs[j].key)
        invariant rs == node.records
        decreases if cmp > 0 then index - left else right - left + 1, if cmp > 0 then 2 else if index == left then 1 else 0
      {
        if cmp > 0 {
          right := index - 1;
          if right < left {
            Emptied(rs, key, left, index);
            return;
          }
          index := (left + right) / 2;
        } else {
          left := index;
          index := (left + right + 1) / 2;
        }
        cmp := Keycmp(rs[index].key, key);
        Compared(rs, key, index);
        if cmp == 0 || left == right {
          break;
        }
      }
    }

    /** A record with an empty value makes the query report. */
    method NodeQuery() returns (status: Status)
      requires index == |node.records| && Sorted(node.records)
      modifies this`index
      ensures status == Success ==>
                && 0 <= index < |node.records| && Chosen(node.records, key, index) && node.records[index].vlen > 0
                && (exact && node.leaf ==> node.records[index].key == key)
      ensures status == Report ==>
                0 <= index < |node.records| && Chosen(node.records, key, index) && node.records[index].vlen == 0
      ensures status == Missing ==>
                || AllAbove(node.records, key)
                || (exact && node.leaf && 0 <= index < |node.records| && Chosen(node.records, key, index) && node.records[index].key != key)
    {
      hide Le, Lt, Keycmp, Sorted;
      var cmp := Bisect();
      if cmp > 0 {
        return Missing;
      }
      KeycmpEqual(node.records[index].key, key);
      if cmp != 0 && node.leaf && exact {
        return Missing;
      }
      status := if node.records[index].vlen == 0 then Report else Success;
    }

    /** btree_query(), for a query with a single match. */
    method Run(ghost root: Node) returns (a: Answer)
      requires node == root && index == |root.records| && depth == 0 && Accepted(disk, root)
      modifies this
      ensures a.Found? ==>
                && a.node.leaf && a.index < |a.node.records|
                && FoundIn(Records(disk, root), key, a.node.records[a.index])
                && Best(Records(disk, root), key, a.node.records[a.index])
                && (exact ==> a.node.records[a.index].key == key)
                && Scan(Records(disk, root), key).Some?
                && Scan(Records(disk, root), key).value.key == a.node.records[a.index].key
      ensures a.NoData? ==> if exact then Absent(Records(disk, root), key) else AllAbove(Records(disk, root), key)
      ensures a.Reported? ==> root.level >= 12 || exists i: nat :: i < |Records(disk, root)| && Records(disk, root)[i].vlen == 0
    {
      hide Records, Runs, Sorted, Best, FoundIn, AllAbove, Chosen, Le, Lt, StrictLeaves, Shaped, Child, ReadNode, Absent;
      RunsSorted(disk, Zero, Records(disk, root));
      ScanDecides(Records(disk, root), key);
      while true
        invariant Searching(disk, root, node, depth, key) && index == |node.records|
        decreases node.level
      {
        if depth >= 12 {
          return Reported;
        }
        IndexSorted(disk, node);
        var status := NodeQuery();
        if status == Missing {
          Stop(disk, root, node, depth, key, exact, index);
          return NoData;
        }
        if node.leaf {
          LeafFound(disk, root, node, depth, key, index);
          FoundIsBest(Records(disk, root), key, node.records[index]);
          if status == Report {
            return Reported;
          }
          return Found(node, index);
        }
        Below(disk, root, node, depth, key, index);
        if status == Report || node.records[index].vlen != 8 {
          return Reported;
        }
        var child := ReadNode(disk, node.records[index].child);
        if child.None? {
          return Reported;
        }
        node := child.value;
        index := |node.records|;
        depth := depth + 1;
      }
    }
  }
}
