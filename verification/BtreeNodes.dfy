/** A tree as the list of its nodes (apfsck/btree.c:938-1098): how many there are,
    and what the checker asks of each one by itself. */
module BtreeNodes {
  import opened Prelude
  import opened BtreeKeys
  import opened Btree

  /** A node, and all those below it that can be reached. */
  ghost function Nodes(d: Disk, n: Node): (s: seq<Node>)
    decreases n.level, |n.records| + 1
  {
    [n] + if n.leaf then [] else NodesBelow(d, n, 0)
  }

  ghost function NodesBelow(d: Disk, n: Node, i: nat): (s: seq<Node>)
    requires i <= |n.records|
    decreases n.level, |n.records| - i
  {
    if i == |n.records| then []
    else (match Child(d, n, i) case None => [] case Some(c) => Nodes(d, c)) + NodesBelow(d, n, i + 1)
  }

  /** The count of nodes is that of the list. */
  lemma {:induction false} CountIs(d: Disk, n: Node)
    ensures NodeCount(d, n) == |Nodes(d, n)|
    decreases n.level, |n.records| + 1
  {
    if !n.leaf {
      CountBelow(d, n, 0);
    }
  }

  lemma {:induction false} CountBelow(d: Disk, n: Node, i: nat)
    requires i <= |n.records|
    ensures NodesFrom(d, n, i) == |NodesBelow(d, n, i)|
    decreases n.level, |n.records| - i
  {
    if i < |n.records| {
      CountBelow(d, n, i + 1);
      if Child(d, n, i).Some? {
        CountIs(d, Child(d, n, i).value);
      }
    }
  }

  /** An index record: eight bytes that lead to a node one level down, which is not
      flagged as a root, is not empty, and starts with the same key. */
  ghost predicate IndexOk(d: Disk, n: Node, i: nat)
    requires i < |n.records|
  {
    var r := n.records[i];
    && r.sound && r.vlen == 8 && d.read(r.child).Some?
    && var c := d.read(r.child).value;
       n.level == c.level + 1 && !c.root && c.records != [] && c.records[0].key == r.key
  }

  /** A leaf record: an extent must have blocks. */
  ghost predicate LeafOk(d: Disk, r: Record)
  {
    r.sound && (d.extentref ==> r.blocks != 0)
  }

  ghost predicate NodeOk(d: Disk, n: Node)
  {
    if n.leaf then n.level == 0 && forall i: nat | i < |n.records| :: LeafOk(d, n.records[i])
    else forall i: nat | i < |n.records| :: IndexOk(d, n, i)
  }

  ghost predicate AllNodesOk(d: Disk, s: seq<Node>)
  {
    forall k: nat | k < |s| :: NodeOk(d, s[k])
  }

  lemma AllJoin(d: Disk, a: seq<Node>, b: seq<Node>)
    ensures AllNodesOk(d, a + b) <==> AllNodesOk(d, a) && AllNodesOk(d, b)
  {
    hide NodeOk;
    var s := a + b;
    if AllNodesOk(d, s) {
      forall k: nat | k < |a|
        ensures NodeOk(d, a[k])
      {
        assert s[k] == a[k];
      }
      forall k: nat | k < |b|
        ensures NodeOk(d, b[k])
      {
        assert s[|a| + k] == b[k];
      }
    }
  }

  /** A subtree has a good shape if and only if each of its nodes is good. */
  lemma {:induction false} ShapedIff(d: Disk, n: Node)
    ensures Shaped(d, n) <==> AllNodesOk(d, Nodes(d, n))
    decreases n.level, |n.records| + 1
  {
    hide NodeOk, AllNodesOk, NodesBelow;
    AllOne(d, n);
    if n.leaf {
      assert NodeOk(d, n) == Shaped(d, n) by { LeafShaped(d, n); }
      assert [n] + [] == [n];
    } else {
      AllJoin(d, [n], NodesBelow(d, n, 0));
      BelowIff(d, n, 0);
      IndexShaped(d, n);
    }
  }

  lemma AllOne(d: Disk, n: Node)
    ensures AllNodesOk(d, [n]) <==> NodeOk(d, n)
  {
    assert [n][0] == n;
  }

  lemma LeafShaped(d: Disk, n: Node)
    requires n.leaf
    ensures NodeOk(d, n) <==> Shaped(d, n)
  {
    if Shaped(d, n) {
      assert ShapedFrom(d, n, 0);
      forall i: nat | i < |n.records|
        ensures LeafOk(d, n.records[i])
      {
        assert ShapedAt(d, n, i);
      }
    } else if NodeOk(d, n) {
      forall i: nat | i < |n.records|
        ensures ShapedAt(d, n, i)
      {
        assert LeafOk(d, n.records[i]);
      }
      assert ShapedFrom(d, n, 0);
    }
  }

  lemma IndexShaped(d: Disk, n: Node)
    requires !n.leaf
    ensures NodeOk(d, n) <==> IndicesOk(d, n, 0)
    ensures Shaped(d, n) <==> ShapedFrom(d, n, 0)
  {
  }

  ghost predicate IndicesOk(d: Disk, n: Node, i: nat)
  {
    forall j: nat | i <= j < |n.records| :: IndexOk(d, n, j)
  }

  lemma {:induction false} BelowIff(d: Disk, n: Node, i: nat)
    requires !n.leaf && i <= |n.records|
    ensures ShapedFrom(d, n, i) <==> IndicesOk(d, n, i) && AllNodesOk(d, NodesBelow(d, n, i))
    decreases n.level, |n.records| - i
  {
    hide AllNodesOk, Nodes, Shaped;
    if i == |n.records| {
      NoNodes(d);
    } else {
      BelowIff(d, n, i + 1);
      FromStep(d, n, i);
      ChildIs(d, n, i);
      if Child(d, n, i).Some? {
        var c := Child(d, n, i).value;
        ShapedIff(d, c);
        AllJoin(d, Nodes(d, c), NodesBelow(d, n, i + 1));
      }
      IndicesStep(d, n, i);
    }
  }

  lemma NoNodes(d: Disk)
    ensures AllNodesOk(d, [])
  {
  }

  lemma ChildIs(d: Disk, n: Node, i: nat)
    requires i < |n.records|
    ensures IndexOk(d, n, i) <==> n.records[i].sound && Child(d, n, i).Some? && Child(d, n, i).value.records[0].key == n.records[i].key
  {
  }

  lemma IndicesStep(d: Disk, n: Node, i: nat)
    requires i < |n.records|
    ensures IndicesOk(d, n, i) <==> IndexOk(d, n, i) && IndicesOk(d, n, i + 1)
  {
    hide IndexOk;
  }
}
