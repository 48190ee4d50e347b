/** The b-tree walk of the checker, which threads the last key seen through the
    whole tree (apfsck/btree.c:938-1098, 1187-1190). */
module Btree {
  import opened Prelude
  import opened BtreeKeys

  /** A record of a node: its key; the length of its value; the child id (in an
      index node); the number of blocks (in a leaf of an extent reference
      tree); and whether all the checks on its own contents pass. */
  datatype Record = Record(key: Key, vlen: nat, child: nat, blocks: nat, sound: bool)

  datatype Node = Node(root: bool, leaf: bool, level: nat, records: seq<Record>)

  /** The footer of a root: its counts, and whether its flags and sizes are those
      of the kind of tree. */
  datatype Footer = Footer(keys: nat, nodes: nat, sound: bool)

  /** Reading a node by id either reports or gives its contents. */
  datatype Disk = Disk(extentref: bool, read: nat -> Option<Node>)

  /** read_node(): empty children are refused by node_is_valid(). */
  function ReadNode(d: Disk, id: nat): (n: Option<Node>)
    ensures n.Some? && !n.value.root ==> |n.value.records| > 0
  {
    match d.read(id)
    case None => None
    case Some(n) => if !n.root && |n.records| == 0 then None else Some(n)
  }

  /** The child of an index record, if it passes the checks of the parent. */
  function Child(d: Disk, n: Node, i: nat): (c: Option<Node>)
    requires i < |n.records|
    ensures c.Some? ==> c.value.level + 1 == n.level && !c.value.root && |c.value.records| > 0
  {
    if n.records[i].vlen != 8 then None
    else
      match ReadNode(d, n.records[i].child)
      case None => None
      case Some(c) => if c.level + 1 != n.level || c.root then None else Some(c)
  }

  /** The last key after a leaf record: in the extent reference tree, the key of
      the last block of the extent. */
  function Advance(d: Disk, r: Record): (k: Key)
  {
    if d.extentref && r.blocks > 0 then r.key.(id := r.key.id + r.blocks - 1) else r.key
  }

  // ----- What parse_subtree() does, on values

  function WalkNode(d: Disk, n: Node, last: Key): (r: Option<Key>)
    decreases n.level, |n.records| + 1
  {
    if n.leaf && n.level != 0 then None else WalkFrom(d, n, 0, last)
  }

  predicate KeyRefused(n: Node, i: nat, last: Key)
    requires i < |n.records|
  {
    var cmp := Keycmp(last, n.records[i].key);
    || cmp > 0
    || (i == 0 && !n.root && cmp != 0)
    || (i != 0 && n.leaf && cmp == 0)
  }

  function WalkFrom(d: Disk, n: Node, i: nat, last: Key): (r: Option<Key>)
    requires i <= |n.records|
    decreases n.level, |n.records| - i
  {
    if i == |n.records| then Some(last)
    else if KeyRefused(n, i, last) || !n.records[i].sound then None
    else if n.leaf then
      if d.extentref && n.records[i].blocks == 0 then None
      else WalkFrom(d, n, i + 1, Advance(d, n.records[i]))
    else
      match Child(d, n, i)
      case None => None
      case Some(c) =>
        match WalkNode(d, c, n.records[i].key)
        case None => None
        case Some(k) => WalkFrom(d, n, i + 1, k)
  }

  // ----- What a good tree is

  /** All the leaf records below a node, from left to right. */
  function Records(d: Disk, n: Node): (s: seq<Record>)
    decreases n.level, |n.records| + 1
  {
    RecordsFrom(d, n, 0)
  }

  function RecordsFrom(d: Disk, n: Node, i: nat): (s: seq<Record>)
    requires i <= |n.records|
    decreases n.level, |n.records| - i
  {
    if n.leaf then n.records[i..]
    else if i == |n.records| then []
    else (match Child(d, n, i) case None => [] case Some(c) => Records(d, c)) + RecordsFrom(d, n, i + 1)
  }

  function NodeCount(d: Disk, n: Node): (k: nat)
    decreases n.level, |n.records| + 1
  {
    1 + if n.leaf then 0 else NodesFrom(d, n, 0)
  }

  function NodesFrom(d: Disk, n: Node, i: nat): (k: nat)
    requires i <= |n.records|
    decreases n.level, |n.records| - i
  {
    if i == |n.records| then 0
    else (match Child(d, n, i) case None => 0 case Some(c) => NodeCount(d, c)) + NodesFrom(d, n, i + 1)
  }

  /** One record is good, leaving the order aside: the child of an index record
      exists and starts with the same key. */
  predicate ShapedAt(d: Disk, n: Node, i: nat)
    requires i < |n.records|
    decreases n.level, 0
  {
    && n.records[i].sound
    && if n.leaf then d.extentref ==> n.records[i].blocks > 0
       else
         match Child(d, n, i)
         case None => false
         case Some(c) => c.records[0].key == n.records[i].key && Shaped(d, c)
  }

  predicate Shaped(d: Disk, n: Node)
    decreases n.level, 2
  {
    (n.leaf ==> n.level == 0) && ShapedFrom(d, n, 0)
  }

  predicate ShapedFrom(d: Disk, n: Node, i: nat)
    decreases n.level, 1
  {
    forall j: nat | i <= j < |n.records| :: ShapedAt(d, n, j)
  }

  /** Inside each leaf a key comes strictly after the end of the record before it. */
  predicate StrictLeaves(d: Disk, n: Node)
    decreases n.level, 2
  {
    StrictFrom(d, n, 0)
  }

  predicate StrictFrom(d: Disk, n: Node, i: nat)
    decreases n.level, 1
  {
    forall j: nat | i <= j < |n.records| :: StrictAt(d, n, j)
  }

  predicate StrictAt(d: Disk, n: Node, j: nat)
    requires j < |n.records|
    decreases n.level, 0
  {
    if n.leaf then j > 0 ==> Lt(Advance(d, n.records[j - 1]), n.records[j].key)
    else Child(d, n, j).Some? ==> StrictLeaves(d, Child(d, n, j).value)
  }

  /** Over all leaves, a key never comes before the end of the record before it. */
  ghost predicate Runs(d: Disk, last: Key, s: seq<Record>)
  {
    forall i: nat | i < |s| :: RunsAt(d, last, s, i)
  }

  ghost predicate RunsAt(d: Disk, last: Key, s: seq<Record>, i: nat)
    requires i < |s|
  {
    Le(if i == 0 then last else Advance(d, s[i - 1]), s[i].key)
  }

  function End(d: Disk, last: Key, s: seq<Record>): Key
  {
    if s == [] then last else Advance(d, s[|s| - 1])
  }

  lemma RunsSplit(d: Disk, last: Key, a: seq<Record>, b: seq<Record>)
    ensures Runs(d, last, a + b) <==> Runs(d, last, a) && Runs(d, End(d, last, a), b)
    ensures End(d, last, a + b) == End(d, End(d, last, a), b)
  {
    hide Le, Advance;
    var s := a + b;
    forall i: nat | i < |s|
      ensures RunsAt(d, last, s, i) == if i < |a| then RunsAt(d, last, a, i) else RunsAt(d, End(d, last, a), b, i - |a|)
    {
    }
    if Runs(d, last, s) {
      forall i: nat | i < |a|
        ensures RunsAt(d, last, a, i)
      {
        assert RunsAt(d, last, s, i);
      }
      forall i: nat | i < |b|
        ensures RunsAt(d, End(d, last, a), b, i)
      {
        assert RunsAt(d, last, s, |a| + i);
      }
    }
  }

  lemma RunsOne(d: Disk, last: Key, r: Record)
    ensures Runs(d, last, [r]) <==> Le(last, r.key)
    ensures End(d, last, [r]) == Advance(d, r)
  {
    assert RunsAt(d, last, [r], 0) == Le(last, r.key);
  }

  // ----- The walk accepts exactly the good trees

  ghost predicate GoodFrom(d: Disk, n: Node, i: nat, last: Key)
    requires i <= |n.records|
  {
    && ShapedFrom(d, n, i) && StrictFrom(d, n, i) && Runs(d, last, RecordsFrom(d, n, i))
    && (i == 0 && |n.records| > 0 && !n.root ==> n.records[0].key == last)
  }

  lemma EndOfRecords(d: Disk, n: Node, last: Key)
    ensures RecordsFrom(d, n, |n.records|) == []
    ensures GoodFrom(d, n, |n.records|, last) && End(d, last, []) == last
  {
  }

  lemma FromStep(d: Disk, n: Node, i: nat)
    requires i < |n.records|
    ensures ShapedFrom(d, n, i) <==> ShapedAt(d, n, i) && ShapedFrom(d, n, i + 1)
    ensures StrictFrom(d, n, i) <==> StrictAt(d, n, i) && StrictFrom(d, n, i + 1)
  {
    hide ShapedAt, StrictAt;
  }

  lemma {:induction false} LeafMeaning(d: Disk, n: Node, i: nat, last: Key)
    requires n.leaf && i <= |n.records| && (i > 0 ==> last == Advance(d, n.records[i - 1]))
    ensures WalkFrom(d, n, i, last).Some? <==> GoodFrom(d, n, i, last)
    ensures GoodFrom(d, n, i, last) ==> WalkFrom(d, n, i, last).value == End(d, last, RecordsFrom(d, n, i))
    decreases |n.records| - i
  {
    hide Keycmp, Runs, End, Advance, ShapedFrom, StrictFrom, Child;
    if i == |n.records| {
      EndOfRecords(d, n, last);
    } else {
      var r := n.records[i];
      var s, t := RecordsFrom(d, n, i), RecordsFrom(d, n, i + 1);
      assert s == [r] + t;
      RunsSplit(d, last, [r], t);
      RunsOne(d, last, r);
      FromStep(d, n, i);
      KeycmpEqual(last, r.key);
      LeafMeaning(d, n, i + 1, Advance(d, r));
    }
  }

  /** The leftmost record below a good node has the node's first key. */
  lemma {:induction false} FirstRecord(d: Disk, n: Node)
    requires Shaped(d, n) && |n.records| > 0
    ensures |Records(d, n)| > 0 && Records(d, n)[0].key == n.records[0].key
    decreases n.level
  {
    if !n.leaf {
      assert ShapedAt(d, n, 0);
      FirstRecord(d, Child(d, n, 0).value);
    }
  }

  lemma {:induction false} IndexMeaning(d: Disk, n: Node, i: nat, last: Key)
    requires !n.leaf && i <= |n.records|
    ensures WalkFrom(d, n, i, last).Some? <==> GoodFrom(d, n, i, last)
    ensures GoodFrom(d, n, i, last) ==> WalkFrom(d, n, i, last).value == End(d, last, RecordsFrom(d, n, i))
    decreases n.level, |n.records| - i
  {
    hide Keycmp, Runs, End, Advance, ShapedFrom, StrictFrom, Child, Shaped, StrictLeaves, Records, WalkNode;
    if i == |n.records| {
      EndOfRecords(d, n, last);
    } else {
      FromStep(d, n, i);
      var r := n.records[i];
      KeycmpEqual(last, r.key);
      if Child(d, n, i).Some? {
        var c := Child(d, n, i).value;
        var t := RecordsFrom(d, n, i + 1);
        assert RecordsFrom(d, n, i) == Records(d, c) + t;
        RunsSplit(d, last, Records(d, c), t);
        WalkMeaning(d, c, r.key);
        if Shaped(d, c) && c.records[0].key == r.key {
          FirstRecord(d, c);
          RunsStart(d, last, r.key, Records(d, c));
          IndexMeaning(d, n, i + 1, End(d, r.key, Records(d, c)));
        }
      }
    }
  }

  lemma RunsStart(d: Disk, last: Key, first: Key, s: seq<Record>)
    requires |s| > 0 && s[0].key == first
    ensures Runs(d, last, s) <==> Le(last, first) && Runs(d, first, s)
    ensures End(d, last, s) == End(d, first, s)
  {
    KeycmpEqual(first, first);
    assert RunsAt(d, last, s, 0) == Le(last, first) && RunsAt(d, first, s, 0);
    forall i: nat | 0 < i < |s|
      ensures RunsAt(d, last, s, i) == RunsAt(d, first, s, i)
    {
    }
  }

  /** The walk accepts a subtree exactly when its shape is good, its first key is
      that of the parent's index record (unless it is the root), leaf keys are
      strictly increasing in each leaf, and nondecreasing from the last key on
      over all leaves; and it leaves the end of the last record behind. */
  lemma WalkMeaning(d: Disk, n: Node, last: Key)
    ensures WalkNode(d, n, last).Some? <==>
            && Shaped(d, n) && StrictLeaves(d, n) && Runs(d, last, Records(d, n))
            && (|n.records| > 0 && !n.root ==> n.records[0].key == last)
    ensures WalkNode(d, n, last).Some? ==> WalkNode(d, n, last).value == End(d, last, Records(d, n))
    decreases n.level, |n.records| + 1
  {
    hide Keycmp, Runs, End, Advance, ShapedFrom, StrictFrom, Child, WalkFrom, RecordsFrom;
    if n.leaf {
      LeafMeaning(d, n, 0, last);
    } else {
      IndexMeaning(d, n, 0, last);
    }
  }

  // ----- Consequences for whole trees

  ghost predicate Sorted(s: seq<Record>)
  {
    forall i: nat, j: nat | i < j < |s| :: Le(s[i].key, s[j].key)
  }

  lemma AdvanceUp(d: Disk, r: Record)
    ensures Le(r.key, Advance(d, r))
  {
    KeycmpEqual(r.key, r.key);
  }

  /** A later record starts at or after the end of every earlier one. */
  lemma {:induction false} RunsPair(d: Disk, last: Key, s: seq<Record>, i: nat, j: nat)
    requires Runs(d, last, s) && i < j < |s|
    ensures Le(Advance(d, s[i]), s[j].key) && Le(s[i].key, s[j].key)
    decreases j
  {
    assert RunsAt(d, last, s, j);
    if i < j - 1 {
      RunsPair(d, last, s, i, j - 1);
      AdvanceUp(d, s[j - 1]);
      LeTransitive(Advance(d, s[i]), s[j - 1].key, Advance(d, s[j - 1]));
      LeTransitive(Advance(d, s[i]), Advance(d, s[j - 1]), s[j].key);
    }
    AdvanceUp(d, s[i]);
    LeTransitive(s[i].key, Advance(d, s[i]), s[j].key);
  }

  lemma RunsSorted(d: Disk, last: Key, s: seq<Record>)
    requires Runs(d, last, s)
    ensures Sorted(s)
  {
    forall i: nat, j: nat | i < j < |s|
      ensures Le(s[i].key, s[j].key)
    {
      RunsPair(d, last, s, i, j);
    }
  }

  /** Inside a leaf of an accepted tree every key is after the whole of every
      earlier record, so no key is repeated. */
  lemma {:induction false} LeafPair(d: Disk, n: Node, i: nat, j: nat)
    requires n.leaf && StrictLeaves(d, n) && i < j < |n.records|
    ensures Lt(Advance(d, n.records[i]), n.records[j].key) && Lt(n.records[i].key, n.records[j].key)
    decreases j
  {
    hide Keycmp, Advance;
    assert StrictAt(d, n, j);
    if i < j - 1 {
      LeafPair(d, n, i, j - 1);
      AdvanceUp(d, n.records[j - 1]);
      LeTransitive(Advance(d, n.records[i]), n.records[j - 1].key, Advance(d, n.records[j - 1]));
      LtTransitive(Advance(d, n.records[i]), Advance(d, n.records[j - 1]), n.records[j].key);
    }
    AdvanceUp(d, n.records[i]);
    LtTransitive(n.records[i].key, Advance(d, n.records[i]), n.records[j].key);
  }

  // ----- The walk itself

  class Checker {
    const disk: Disk
    var lastKey: Key
    var keyCount: nat
    var nodeCount: nat

    constructor (d: Disk)
      ensures disk == d && lastKey == Zero && keyCount == 0 && nodeCount == 0
    {
      disk := d;
      lastKey := Zero;
      keyCount, nodeCount := 0, 0;
    }

    /** A report ends the program, so the state then does not matter. */
    method ParseSubtree(n: Node) returns (ok: bool)
      modifies this
      decreases n.level
      ensures ok == WalkNode(disk, n, old(lastKey)).Some?
      ensures ok ==> lastKey == WalkNode(disk, n, old(lastKey)).value
      ensures ok ==> keyCount == old(keyCount) + |Records(disk, n)|
      ensures ok ==> nodeCount == old(nodeCount) + NodeCount(disk, n)
    {
      hide Keycmp, Advance, Child;
      if n.leaf {
        if n.level != 0 {
          return false;
        }
        keyCount := keyCount + |n.records|;
      }
      nodeCount := nodeCount + 1;
      ghost var key0, keys0, nodes0 := lastKey, keyCount, nodeCount;
      for i := 0 to |n.records|
        invariant WalkFrom(disk, n, i, lastKey) == WalkFrom(disk, n, 0, key0)
        invariant n.leaf ==> keyCount == keys0 && nodeCount == nodes0
        invariant !n.leaf ==> keyCount + |RecordsFrom(disk, n, i)| == keys0 + |RecordsFrom(disk, n, 0)|
        invariant !n.leaf ==> nodeCount + NodesFrom(disk, n, i) == nodes0 + NodesFrom(disk, n, 0)
      {
        var r := n.records[i];
        if KeyRefused(n, i, lastKey) || !r.sound {
          return false;
        }
        lastKey := r.key;
        if n.leaf {
          if disk.extentref && r.blocks == 0 {
            return false;
          }
          lastKey := Advance(disk, r);
        } else {
          var child := Child(disk, n, i);
          if child.None? {
            return false;
          }
          var parsed := ParseSubtree(child.value);
          if !parsed {
            return false;
          }
        }
      }
      ok := true;
    }

    /** The part that all the parse_*_btree() functions share: the walk from the
        root, and the footer. */
    method ParseTree(rootId: nat, footer: Footer) returns (ok: bool)
      requires lastKey == Zero && keyCount == 0 && nodeCount == 0
      modifies this
      ensures ok <==>
              && ReadNode(disk, rootId).Some?
              && Accepted(disk, ReadNode(disk, rootId).value)
              && footer.keys == |Records(disk, ReadNode(disk, rootId).value)|
              && footer.nodes == NodeCount(disk, ReadNode(disk, rootId).value)
              && footer.sound
    {
      hide WalkNode, Runs, Records, NodeCount, Shaped, StrictLeaves;
      var root := ReadNode(disk, rootId);
      if root.None? {
        return false;
      }
      WalkMeaning(disk, root.value, Zero);
      ok := ParseSubtree(root.value);
      if ok {
        ok := root.value.root && footer.keys == keyCount && footer.nodes == nodeCount && footer.sound;
      }
    }
  }

  /** What the checks on the order of a tree amount to. */
  ghost predicate Accepted(d: Disk, n: Node)
  {
    n.root && Shaped(d, n) && StrictLeaves(d, n) && Runs(d, Zero, Records(d, n))
  }
}
