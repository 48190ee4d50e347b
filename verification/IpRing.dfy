/** The ring of internal-pool bitmaps: the free list that the checker walks
    (apfsck/spaceman.c:758-788, 834-872), and the one that the writer makes
    (mkapfs/spaceman.c:453-469, 492-498). */
module IpRing {
  import opened Allocation

  const INVALID: nat := 0xFFFF
  const COUNT_MAX: nat := 0xFFFE

  ghost predicate Link(next: seq<nat>, tail: nat, path: seq<nat>, i: nat)
    requires i + 1 < |path|
  {
    path[i] < |next| && path[i] != tail && path[i + 1] == next[path[i]]
  }

  /** Some steps of the list, none of them from the tail. */
  ghost predicate Chain(next: seq<nat>, head: nat, tail: nat, path: seq<nat>)
  {
    && |path| > 0 && path[0] == head
    && forall i: nat | i < |path| - 1 :: Link(next, tail, path, i)
  }

  /** All the indices from head to tail. */
  ghost predicate FreeList(next: seq<nat>, head: nat, tail: nat, list: seq<nat>)
  {
    Chain(next, head, tail, list) && list[|list| - 1] == tail && tail < |next|
  }

  /** What makes the walk of the free list succeed. */
  ghost predicate GoodList(next: seq<nat>, head: nat, tail: nat, list: seq<nat>)
  {
    FreeList(next, head, tail, list) && |list| < |next| && next[tail] == INVALID
  }

  lemma ChainMore(next: seq<nat>, head: nat, tail: nat, path: seq<nat>)
    requires Chain(next, head, tail, path)
    requires var at := path[|path| - 1]; at < |next| && at != tail
    ensures Chain(next, head, tail, path + [next[path[|path| - 1]]])
  {
    var longer := path + [next[path[|path| - 1]]];
    forall i: nat | i < |path|
      ensures Link(next, tail, longer, i)
    {
      assert i < |path| - 1 ==> Link(next, tail, path, i);
    }
  }

  /** The walk has no choice: any free list starts with what was walked. */
  lemma {:induction false} SameWay(next: seq<nat>, head: nat, tail: nat, path: seq<nat>, list: seq<nat>, i: nat)
    requires Chain(next, head, tail, path) && FreeList(next, head, tail, list) && i < |path|
    ensures i < |list| && list[i] == path[i]
  {
    if i > 0 {
      SameWay(next, head, tail, path, list, i - 1);
      assert Link(next, tail, path, i - 1);
      assert i < |list| ==> Link(next, tail, list, i - 1);
    }
  }

  lemma {:induction false} Shifted(next: seq<nat>, head: nat, tail: nat, list: seq<nat>, i: nat, j: nat, k: nat)
    requires FreeList(next, head, tail, list) && i < j && j + k < |list| && list[i] == list[j]
    ensures list[i + k] == list[j + k]
  {
    if k > 0 {
      Shifted(next, head, tail, list, i, j, k - 1);
      assert Link(next, tail, list, i + k - 1) && Link(next, tail, list, j + k - 1);
    }
  }

  /** The list visits no index twice. */
  lemma Distinct(next: seq<nat>, head: nat, tail: nat, list: seq<nat>, i: nat, j: nat)
    requires FreeList(next, head, tail, list) && i < j < |list|
    ensures list[i] != list[j]
  {
    var k := |list| - 1 - j;
    assert Link(next, tail, list, i + k);
    if list[i] == list[j] {
      Shifted(next, head, tail, list, i, j, k);
      assert false;
    }
  }

  lemma ListInside(next: seq<nat>, head: nat, tail: nat, list: seq<nat>, i: nat)
    requires FreeList(next, head, tail, list) && i < |list|
    ensures list[i] < |next|
    ensures list[i] != tail ==> next[list[i]] < |next|
  {
    if i < |list| - 1 {
      assert Link(next, tail, list, i);
      if i < |list| - 2 {
        assert Link(next, tail, list, i + 1);
      }
    }
  }

  /** check_ip_free_next(): terminates on every array, because it counts. */
  method CheckFreeNext(next: seq<nat>, head: nat, tail: nat) returns (ok: bool, used: int, ghost list: seq<nat>)
    ensures ok <==> exists l :: GoodList(next, head, tail, l)
    ensures ok ==> GoodList(next, head, tail, list) && used == |next| - |list|
  {
    hide Chain;
    var curr: nat, nxt: nat, count: nat := tail, head, 0;
    list := [head];
    ChainStart(next, head, tail);
    while true
      invariant count + 1 == |list| && list[count] == nxt && Chain(next, head, tail, list)
      invariant if count == 0 then curr == tail else curr < |next| && curr != tail && count < |next|
      decreases |next| - count
    {
      if curr >= |next| || nxt >= |next| {
        OffTheEnd(next, head, tail, list, curr);
        return false, 0, [];
      }
      count := count + 1;
      if count >= |next| {
        TooLong(next, head, tail, list);
        return false, 0, [];
      }
      curr := nxt;
      nxt := next[curr];
      if curr == tail {
        break;
      }
      ChainMore(next, head, tail, list);
      list := list + [nxt];
    }
    if next[tail] != INVALID {
      return false, 0, [];
    }
    assert GoodList(next, head, tail, list);
    ok, used := true, |next| - count;
  }

  lemma ChainStart(next: seq<nat>, head: nat, tail: nat)
    ensures Chain(next, head, tail, [head])
  {
  }

  lemma OffTheEnd(next: seq<nat>, head: nat, tail: nat, path: seq<nat>, curr: nat)
    requires Chain(next, head, tail, path) && (path[|path| - 1] >= |next| || tail >= |next|)
    ensures forall l :: !GoodList(next, head, tail, l)
  {
    forall l
      ensures !GoodList(next, head, tail, l)
    {
      if GoodList(next, head, tail, l) {
        SameWay(next, head, tail, path, l, |path| - 1);
        ListInside(next, head, tail, l, |path| - 1);
      }
    }
  }

  lemma TooLong(next: seq<nat>, head: nat, tail: nat, path: seq<nat>)
    requires Chain(next, head, tail, path) && |path| >= |next|
    ensures forall l :: !GoodList(next, head, tail, l)
  {
    forall l
      ensures !GoodList(next, head, tail, l)
    {
      if GoodList(next, head, tail, l) {
        SameWay(next, head, tail, path, l, |path| - 1);
      }
    }
  }

  // ----- The whole ring

  function Members(s: seq<nat>): (r: set<nat>)
    ensures forall x :: x in r <==> x in s
  {
    if s == [] then {} else Members(s[..|s| - 1]) + {s[|s| - 1]}
  }

  ghost predicate AllDifferent(s: seq<nat>)
  {
    forall i: nat, j: nat | i < j < |s| :: s[i] != s[j]
  }

  lemma {:induction false} MembersSize(s: seq<nat>)
    requires AllDifferent(s)
    ensures |Members(s)| == |s|
  {
    if s != [] {
      MembersSize(s[..|s| - 1]);
      assert s[|s| - 1] !in s[..|s| - 1];
    }
  }

  /** A bitmap block that is in use for one part of the internal pool. */
  ghost predicate UsedBlock(next: seq<nat>, tail: nat, b: nat)
  {
    b < |next| && next[b] == INVALID && b != tail
  }

  ghost predicate GoodUsed(next: seq<nat>, tail: nat, used: seq<nat>)
  {
    AllDifferent(used) && forall i: nat | i < |used| :: UsedBlock(next, tail, used[i])
  }

  ghost predicate GoodRing(next: seq<nat>, size: nat, head: nat, tail: nat, offs: seq<nat>)
  {
    && |next| <= COUNT_MAX && |next| == 16 * size
    && (exists l :: GoodList(next, head, tail, l) && |next| - |l| == size)
    && size <= |offs| && GoodUsed(next, tail, offs[..size])
  }

  /** In a good ring, the free list and the blocks in use are a partition. */
  lemma RingPartition(next: seq<nat>, head: nat, tail: nat, list: seq<nat>, used: seq<nat>)
    requires |next| <= COUNT_MAX && GoodList(next, head, tail, list) && GoodUsed(next, tail, used) && |list| + |used| == |next|
    ensures AllDifferent(list) && AllDifferent(used)
    ensures Members(list) !! Members(used) && Members(list) + Members(used) == Blocks(0, |next|)
  {
    hide FreeList;
    FreeListDifferent(next, head, tail, list);
    forall i: nat, j: nat | i < |list| && j < |used|
      ensures list[i] != used[j]
    {
      assert UsedBlock(next, tail, used[j]);
      ListInside(next, head, tail, list, i);
    }
    var a, b, all := Members(list), Members(used), Blocks(0, |next|);
    forall x | x in a
      ensures x in all
    {
      var i :| 0 <= i < |list| && list[i] == x;
      ListInside(next, head, tail, list, i);
    }
    MembersSize(list);
    MembersSize(used);
    BlocksSize(0, |next|);
    AllOf(a, b, all);
  }

  lemma FreeListDifferent(next: seq<nat>, head: nat, tail: nat, list: seq<nat>)
    requires FreeList(next, head, tail, list)
    ensures AllDifferent(list)
  {
    hide FreeList;
    forall i: nat, j: nat | i < j < |list|
      ensures list[i] != list[j]
    {
      Distinct(next, head, tail, list, i, j);
    }
  }

  lemma AllOf(a: set<nat>, b: set<nat>, all: set<nat>)
    requires a !! b && a <= all && b <= all && |a| + |b| == |all|
    ensures a + b == all
  {
    assert |a + b| == |a| + |b|;
    assert all == (a + b) + (all - (a + b));
    assert |all - (a + b)| == 0;
  }

  /** parse_ip_bitmap_list(), without the reads of the bitmaps themselves; an
      offset that is not stored in the space manager makes it report. */
  method ParseIpBitmapList(next: seq<nat>, size: nat, head: nat, tail: nat, offs: seq<nat>) returns (ok: bool, ghost list: seq<nat>)
    ensures ok <==> GoodRing(next, size, head, tail, offs)
    ensures ok ==> AllDifferent(list) && AllDifferent(offs[..size])
    ensures ok ==> Members(list) !! Members(offs[..size]) && Members(list) + Members(offs[..size]) == Blocks(0, |next|)
    ensures ok ==> GoodList(next, head, tail, list)
  {
    hide GoodList, Blocks, Members;
    list := [];
    if |next| > COUNT_MAX || |next| != 16 * size {
      return false, list;
    }
    var good, usedCount;
    good, usedCount, list := CheckFreeNext(next, head, tail);
    if good {
      forall l | GoodList(next, head, tail, l)
        ensures |l| == |list|
      {
        SameLength(next, head, tail, list, l);
      }
    }
    if !good || usedCount != size {
      return false, list;
    }
    var used: seq<nat> := [tail];
    for i := 0 to size
      invariant |used| == i + 1 && used[0] == tail && i <= |offs| && used[1..] == offs[..i] && GoodUsed(next, tail, offs[..i])
    {
      if i >= |offs| {
        return false, list;
      }
      var off := offs[i];
      if off >= |next| || next[off] != INVALID {
        assert size <= |offs| ==> offs[..size][i] == off;
        return false, list;
      }
      for j := 0 to i + 1
        invariant forall k: nat | k < j :: used[k] != off
      {
        if used[j] == off {
          Repeated(next, tail, offs, size, i, j, used);
          return false, list;
        }
      }
      UsedMore(next, tail, offs, i, used);
      used := used + [off];
    }
    RingPartition(next, head, tail, list, offs[..size]);
    ok := true;
  }

  lemma SameLength(next: seq<nat>, head: nat, tail: nat, a: seq<nat>, b: seq<nat>)
    requires GoodList(next, head, tail, a) && GoodList(next, head, tail, b)
    ensures |a| == |b|
  {
    SameWay(next, head, tail, a, b, |a| - 1);
    SameWay(next, head, tail, b, a, |b| - 1);
  }

  lemma Repeated(next: seq<nat>, tail: nat, offs: seq<nat>, size: nat, i: nat, j: nat, used: seq<nat>)
    requires i < |offs| && i < size && j <= i && |used| == i + 1 && used[0] == tail && used[1..] == offs[..i] && used[j] == offs[i]
    ensures size <= |offs| ==> !GoodUsed(next, tail, offs[..size])
  {
    if size <= |offs| {
      var s := offs[..size];
      assert s[i] == offs[i];
      if j > 0 {
        assert used[1..][j - 1] == offs[..i][j - 1];
        assert s[j - 1] == s[i];
      } else {
        assert !UsedBlock(next, tail, s[i]);
      }
    }
  }

  lemma UsedMore(next: seq<nat>, tail: nat, offs: seq<nat>, i: nat, used: seq<nat>)
    requires i < |offs| && GoodUsed(next, tail, offs[..i]) && offs[i] < |next| && next[offs[i]] == INVALID
    requires |used| == i + 1 && used[0] == tail && used[1..] == offs[..i] && forall k: nat | k <= i :: used[k] != offs[i]
    ensures GoodUsed(next, tail, offs[..i + 1])
    ensures (used + [offs[i]])[1..] == offs[..i + 1]
  {
    var s, t := offs[..i], offs[..i + 1];
    assert t == s + [offs[i]];
    forall k: nat | k < i
      ensures s[k] != offs[i]
    {
      assert used[1..][k] == used[k + 1];
    }
  }

  // ----- The ring that mkapfs makes

  /** What the writer leaves in the list, with 16-bit entries. */
  function MadeNext(size: nat, i: nat): (r: nat)
  {
    if i < size || i + 1 == 16 * size then INVALID else (i + 1) % 0x1_0000
  }

  /** make_ip_bm_free_next() */
  method MakeFreeNext(addr: array<nat>, size: nat)
    requires size > 0 && addr.Length == 16 * size
    modifies addr
    ensures forall i: nat | i < addr.Length :: addr[i] == MadeNext(size, i)
  {
    for i := 0 to size
      invariant forall k: nat | k < i :: addr[k] == INVALID
    {
      addr[i] := INVALID;
    }
    for i := size to 16 * size - 1
      invariant forall k: nat | k < i :: addr[k] == MadeNext(size, k)
    {
      addr[i] := (i + 1) % 0x1_0000;
    }
    addr[16 * size - 1] := INVALID;
  }

  function Upto(first: nat, end: nat): (s: seq<nat>)
    requires first <= end
    ensures |s| == end - first && forall i: nat | i < |s| :: s[i] == first + i
    decreases end
  {
    if first == end then [] else Upto(first, end - 1) + [end - 1]
  }

  /** What mkapfs makes is a good ring, with exactly the first `size` blocks in
      use, unless there are too many blocks for 16-bit indices. */
  lemma MadeRing(next: seq<nat>, size: nat)
    requires size > 0 && |next| == 16 * size && forall i: nat | i < |next| :: next[i] == MadeNext(size, i)
    ensures GoodRing(next, size, size, 16 * size - 1, Upto(0, size)) <==> 16 * size <= COUNT_MAX
  {
    if 16 * size <= COUNT_MAX {
      var tail := 16 * size - 1;
      var list := Upto(size, 16 * size);
      forall i: nat | i < |list| - 1
        ensures Link(next, tail, list, i)
      {
        assert list[i] == size + i && list[i + 1] == size + i + 1;
        assert next[size + i] == MadeNext(size, size + i);
      }
      assert next[tail] == MadeNext(size, tail);
      assert GoodList(next, size, tail, list);
      var used := Upto(0, size);
      forall i: nat | i < size
        ensures UsedBlock(next, tail, used[i])
      {
        assert next[i] == MadeNext(size, i);
      }
      assert used[..size] == used;
    }
  }
}
