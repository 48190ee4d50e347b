/** zlib_inflate_table (lib/zlib_inflate/inftrees.c:23-315): it builds decoding
    tables that find every code of the canonical set, and rejects the sets that
    are over-subscribed or incomplete. */
module InfTrees {
  import opened Prelude
  import opened BitStrings
  import opened Canonical
  import opened InfTables
  import opened InfSize

  datatype Outcome = Built(table: seq<Entry>, root: nat) | Invalid | NotEnough

  // ----- Counting and sorting (lines 92-133)

  ghost predicate IsMax(lens: seq<nat>, max: nat)
  {
    && max <= MAXBITS && (max > 0 ==> Count(lens, max) > 0)
    && forall l | max < l <= MAXBITS :: Count(lens, l) == 0
  }

  ghost predicate IsMin(lens: seq<nat>, min: nat)
  {
    && 1 <= min <= MAXBITS && Count(lens, min) > 0
    && forall l | 1 <= l < min :: Count(lens, l) == 0
  }

  ghost predicate Counts(lens: seq<nat>, count: seq<nat>)
  {
    |count| == MAXBITS + 1 && forall l | 1 <= l <= MAXBITS :: count[l] == Count(lens, l)
  }

  method CountLengths(lens: seq<nat>) returns (count: seq<nat>)
    requires ValidLens(lens)
    ensures Counts(lens, count)
  {
    count := seq(MAXBITS + 1, _ => 0);
    for sym := 0 to |lens|
      invariant |count| == MAXBITS + 1
      invariant forall l | 0 <= l <= MAXBITS :: count[l] == CountUpto(lens, l, sym)
    {
      count := count[lens[sym] := count[lens[sym]] + 1];
    }
  }

  method BoundLengths(lens: seq<nat>, count: seq<nat>) returns (max: nat, min: nat)
    requires Counts(lens, count)
    ensures IsMax(lens, max)
    ensures max > 0 ==> IsMin(lens, min) && min <= max
  {
    max := MAXBITS;
    while max >= 1 && count[max] == 0
      invariant max <= MAXBITS && forall l | max < l <= MAXBITS :: Count(lens, l) == 0
    {
      max := max - 1;
    }
    min := 1;
    while min < MAXBITS && count[min] == 0
      invariant 1 <= min <= MAXBITS && forall l | 1 <= l < min :: Count(lens, l) == 0
    {
      min := min + 1;
    }
  }

  /** The check for over-subscription follows the codes from short to long. */
  method CheckKraft(lens: seq<nat>, count: seq<nat>) returns (left: int)
    requires Counts(lens, count)
    ensures left < 0 <==> Kraft(lens) > Pow2(MAXBITS)
    ensures left >= 0 ==> left == Pow2(MAXBITS) - Kraft(lens)
  {
    hide Count, Shl, Pow2;
    left := 1;
    assert Pow2(0) == 1 by { ShlOne(0); ShlIsOne(); }
    ShlOne(MAXBITS);
    var len := 1;
    while len <= MAXBITS
      invariant 1 <= len <= MAXBITS + 1 && left >= 0
      invariant Shl(left, MAXBITS + 1 - len) == Pow2(MAXBITS) - Space(lens, len)
    {
      var twice := 2 * left;
      ShlInner(left, MAXBITS - len);
      ShlDouble(left, MAXBITS - len);
      left := twice - count[len];
      if left < 0 {
        ShlMonotone(twice, Count(lens, len), MAXBITS - len);
        SpaceMonotone(lens, len + 1, MAXBITS + 1);
        return;
      }
      ShlAdd(left, count[len], MAXBITS - len);
      len := len + 1;
    }
    ShlNone(left);
  }

  lemma ShlIsOne()
    ensures Shl(1, 0) == 1
  {
  }

  lemma ShlNone(a: nat)
    ensures Shl(a, 0) == a
  {
  }

  lemma ShlDouble(a: nat, n: nat)
    ensures Shl(a, n + 1) == 2 * Shl(a, n)
  {
  }

  /** Where each symbol goes when they are sorted by length, then by value. */
  ghost predicate SortedSymbols(lens: seq<nat>, work: seq<nat>)
  {
    && |work| == Offs(lens, MAXBITS + 1)
    && forall i | 0 <= i < |work| :: InPlace(lens, work, i)
  }

  ghost predicate InPlace(lens: seq<nat>, work: seq<nat>, i: nat)
    requires i < |work|
  {
    work[i] < |lens| && 1 <= lens[work[i]] <= MAXBITS && i == Offs(lens, lens[work[i]]) + Rank(lens, work[i])
  }

  lemma SlotBounds(lens: seq<nat>, s: nat)
    requires ValidLens(lens) && s < |lens| && lens[s] > 0
    ensures Offs(lens, lens[s]) + Rank(lens, s) < Offs(lens, lens[s] + 1) <= Offs(lens, MAXBITS + 1)
  {
    RankBound(lens, s);
    OffsMonotone(lens, lens[s] + 1, MAXBITS + 1);
  }

  lemma SlotsDiffer(lens: seq<nat>, s: nat, t: nat)
    requires ValidLens(lens) && s < |lens| && t < |lens| && s != t && lens[s] > 0 && lens[t] > 0
    ensures Offs(lens, lens[s]) + Rank(lens, s) != Offs(lens, lens[t]) + Rank(lens, t)
  {
    hide Offs, Rank;
    SlotBounds(lens, s);
    SlotBounds(lens, t);
    if lens[s] < lens[t] {
      OffsMonotone(lens, lens[s] + 1, lens[t]);
    } else if lens[t] < lens[s] {
      OffsMonotone(lens, lens[t] + 1, lens[s]);
    } else if s < t {
      RankInjective(lens, s, t);
    } else {
      RankInjective(lens, t, s);
    }
  }

  /** Every slot belongs to a symbol. */
  lemma {:induction false} SlotOwner(lens: seq<nat>, i: nat, m: nat) returns (s: nat)
    requires ValidLens(lens) && m <= MAXBITS && i < Offs(lens, m + 1)
    ensures s < |lens| && 1 <= lens[s] <= m && i == Offs(lens, lens[s]) + Rank(lens, s)
  {
    if i >= Offs(lens, m) {
      CountIs(lens, m);
      s := Nth(lens, m, i - Offs(lens, m), |lens|);
    } else {
      s := SlotOwner(lens, i, m - 1);
    }
  }

  /** The offsets of lines 126-129. */
  method Offsets(lens: seq<nat>, count: seq<nat>) returns (offs: seq<nat>)
    requires Counts(lens, count)
    ensures |offs| == MAXBITS + 1 && forall l | 1 <= l <= MAXBITS :: offs[l] == Offs(lens, l)
  {
    hide Count;
    offs := seq(MAXBITS + 1, _ => 0);
    for len := 1 to MAXBITS
      invariant |offs| == MAXBITS + 1 && forall l | 1 <= l <= len :: offs[l] == Offs(lens, l)
    {
      offs := offs[len + 1 := offs[len] + count[len]];
    }
  }

  ghost predicate SortedUpto(lens: seq<nat>, work: seq<nat>, n: nat)
    requires n <= |lens|
  {
    |work| == Offs(lens, MAXBITS + 1) && forall s: nat | s < n && lens[s] > 0 :: Slotted(lens, work, s)
  }

  lemma PutSymbol(lens: seq<nat>, work: seq<nat>, sym: nat)
    requires ValidLens(lens) && sym < |lens| && lens[sym] > 0 && SortedUpto(lens, work, sym)
    ensures var i := Offs(lens, lens[sym]) + Rank(lens, sym);
            i < |work| && SortedUpto(lens, work[i := sym], sym + 1)
  {
    hide Offs, Rank;
    SlotBounds(lens, sym);
    var i := Offs(lens, lens[sym]) + Rank(lens, sym);
    forall s: nat | s < sym + 1 && lens[s] > 0
      ensures Slotted(lens, work[i := sym], s)
    {
      if s < sym {
        SlotsDiffer(lens, s, sym);
        assert Slotted(lens, work, s);
      }
    }
  }

  lemma AllSorted(lens: seq<nat>, work: seq<nat>)
    requires ValidLens(lens) && SortedUpto(lens, work, |lens|)
    ensures SortedSymbols(lens, work)
  {
    hide Offs, Rank;
    forall i | 0 <= i < |work|
      ensures InPlace(lens, work, i)
    {
      var s := SlotOwner(lens, i, MAXBITS);
      assert Slotted(lens, work, s);
    }
  }

  method SortSymbols(lens: seq<nat>, count: seq<nat>) returns (work: seq<nat>)
    requires ValidLens(lens) && Counts(lens, count)
    ensures SortedSymbols(lens, work)
  {
    hide Count, Rank, CountUpto, Offs, SortedUpto, SortedSymbols;
    var offs := Offsets(lens, count);
    work := seq(offs[MAXBITS] + count[MAXBITS], _ => 0);
    LastOffset(lens);
    NoneSorted(lens, work);
    NoneBefore(lens);
    for sym := 0 to |lens|
      invariant |offs| == MAXBITS + 1
      invariant forall l | 1 <= l <= MAXBITS :: offs[l] == Offs(lens, l) + CountUpto(lens, l, sym)
      invariant SortedUpto(lens, work, sym)
    {
      OneMore(lens, sym);
      if lens[sym] != 0 {
        PutSymbol(lens, work, sym);
        work := work[offs[lens[sym]] := sym];
        offs := offs[lens[sym] := offs[lens[sym]] + 1];
      } else {
        SkipSymbol(lens, work, sym);
      }
    }
    AllSorted(lens, work);
  }

  lemma LastOffset(lens: seq<nat>)
    ensures Offs(lens, MAXBITS + 1) == Offs(lens, MAXBITS) + Count(lens, MAXBITS)
  {
  }

  lemma NoneSorted(lens: seq<nat>, work: seq<nat>)
    requires |work| == Offs(lens, MAXBITS + 1)
    ensures SortedUpto(lens, work, 0)
  {
  }

  lemma SkipSymbol(lens: seq<nat>, work: seq<nat>, sym: nat)
    requires sym < |lens| && lens[sym] == 0 && SortedUpto(lens, work, sym)
    ensures SortedUpto(lens, work, sym + 1)
  {
  }

  ghost predicate Slotted(lens: seq<nat>, work: seq<nat>, s: nat)
    requires s < |lens|
  {
    var i := Offs(lens, lens[s]) + Rank(lens, s);
    i < |work| && work[i] == s
  }

  lemma NoneBefore(lens: seq<nat>)
    ensures forall l :: CountUpto(lens, l, 0) == 0
  {
  }

  lemma OneMore(lens: seq<nat>, n: nat)
    requires n < |lens|
    ensures forall l :: CountUpto(lens, l, n + 1) == CountUpto(lens, l, n) + (if lens[n] == l then 1 else 0)
    ensures Rank(lens, n) == CountUpto(lens, lens[n], n)
  {
  }

  // ----- Filling one table (lines 218-225) and the backwards increment (227-236)

  method Replicate(table: seq<Entry>, base: nat, curr: nat, h: nat, l: nat, e: Entry) returns (r: seq<Entry>)
    requires l <= curr && h < Pow2(l) && base + Pow2(curr) <= |table|
    ensures Filled(table, r, base, Pow2(curr), h, l, e)
  {
    hide Pow2, Low, Shl, Drop;
    ShlPow2(l, curr - l);
    ShlOne(curr - l);
    Pow2IsShl(curr, l);
    var incr, fill := Pow2(l), Pow2(curr);
    ghost var m: nat := Pow2(curr - l);
    r := table;
    while fill != 0
      invariant fill == Shl(m, l) && |r| == |table|
      invariant m <= Pow2(curr - l)
      invariant forall j: nat | j < |table| ::
                  r[j] == if base <= j < base + Pow2(curr) && Low(j - base, l) == h && j - base >= fill then e else table[j]
      decreases m
    {
      ShlZero(l);
      assert m > 0;
      ShlNext(m - 1, l);
      ghost var old_r, old_fill := r, fill;
      fill := fill - incr;
      m := m - 1;
      ShlMonotone(m + 1, Pow2(curr - l), l);
      r := r[base + h + fill := e];
      forall j: nat | j < |table|
        ensures r[j] == if base <= j < base + Pow2(curr) && Low(j - base, l) == h && j - base >= fill then e else table[j]
      {
        if base <= j < base + Pow2(curr) && fill <= j - base < old_fill {
          var x := j - base - fill;
          LowShl(x, m, l);
          assert x + fill == j - base;
        }
      }
    }
  }

  lemma Pow2IsShl(curr: nat, l: nat)
    requires l <= curr
    ensures Pow2(curr) == Shl(Pow2(curr - l), l)
  {
    ShlPow2(curr - l, l);
  }

  method BackwardsIncrement(huff: nat, len: nat) returns (r: nat)
    requires huff < Pow2(len) && len > 0
    ensures r == BackInc(huff, len)
  {
    var bit: nat, rest: nat := len, huff;
    while bit > 0 && rest >= Pow2(bit - 1)
      invariant 0 <= bit <= len && rest < Pow2(bit)
      invariant BackInc(huff, len) == BackInc(rest, bit)
    {
      rest := rest - Pow2(bit - 1);
      bit := bit - 1;
    }
    if bit != 0 {
      r := rest + Pow2(bit - 1);
    } else {
      r := 0;
    }
  }

  // ----- The order of the main loop

  lemma {:induction false} OffsFlat(lens: seq<nat>, a: nat, b: nat, l: nat)
    requires 1 <= a <= l < b && Offs(lens, a) == Offs(lens, b)
    ensures Count(lens, l) == 0
  {
    OffsMonotone(lens, a, l);
    OffsMonotone(lens, l + 1, b);
  }

  lemma {:induction false} NextCodeSkip(lens: seq<nat>, l: nat, m: nat)
    requires 1 <= l < m && forall b | l < b < m :: Count(lens, b) == 0
    ensures NextCode(lens, m) == Shl(NextCode(lens, l) + Count(lens, l), m - l)
  {
    hide Count;
    if m - 1 == l {
      assert Shl(NextCode(lens, l) + Count(lens, l), 1) == 2 * Shl(NextCode(lens, l) + Count(lens, l), 0);
    } else {
      NextCodeSkip(lens, l, m - 1);
    }
  }

  /** The first symbol of the next length in use. */
  lemma NextLength(lens: seq<nat>, work: seq<nat>, max: nat, len: nat)
    requires ValidLens(lens) && SortedSymbols(lens, work) && IsMax(lens, max) && 1 <= len < max
    ensures var i := Offs(lens, len + 1);
            && i < |work| && work[i] < |lens|
            && var m := lens[work[i]];
               && len < m <= max && Offs(lens, m) == i && Rank(lens, work[i]) == 0
               && (forall l | len < l < m :: Count(lens, l) == 0)
               && Rev(NextCode(lens, m), m) == Rev(NextCode(lens, len) + Count(lens, len), len)
  {
    hide Count, Rank, Rev, NextCode, Shl;
    var i := Offs(lens, len + 1);
    OffsMonotone(lens, len + 1, max);
    OffsMonotone(lens, max + 1, MAXBITS + 1);
    assert Offs(lens, max + 1) == Offs(lens, max) + Count(lens, max);
    assert InPlace(lens, work, i);
    var m := lens[work[i]];
    SlotBounds(lens, work[i]);
    RankBound(lens, work[i]);
    if m <= len {
      OffsMonotone(lens, m + 1, len + 1);
    }
    OffsMonotone(lens, len + 1, m);
    forall l | len < l < m ensures Count(lens, l) == 0 {
      OffsFlat(lens, len + 1, m, l);
    }
    NextCodeSkip(lens, len, m);
    RevShift(NextCode(lens, len) + Count(lens, len), len, m - len);
  }

  // ----- Regions: codes that share their first `root` bits

  ghost function Region(lens: seq<nat>, root: nat, l: nat, r: nat): nat
    requires root <= l
  {
    Drop(NextCode(lens, l) + r, l - root)
  }

  lemma RegionLow(lens: seq<nat>, root: nat, l: nat, r: nat)
    requires root <= l
    ensures Low(Rev(NextCode(lens, l) + r, l), root) == Rev(Region(lens, root, l, r), root)
  {
    RevLow(NextCode(lens, l) + r, l, root);
  }

  lemma {:induction false} DropDrop(a: nat, m: nat, n: nat)
    ensures Drop(Drop(a, m), n) == Drop(a, m + n)
  {
    if m > 0 { DropDrop(a / 2, m - 1, n); }
  }

  lemma CodeOrder(lens: seq<nat>, l1: nat, r1: nat, l2: nat, r2: nat)
    requires 1 <= l1 <= l2 <= MAXBITS && r1 < Count(lens, l1) && Before(l1, r1, l2, r2)
    ensures NextCode(lens, l2) + r2 >= Shl(NextCode(lens, l1) + r1 + 1, l2 - l1)
  {
    hide Shl, Count, Space, Pow2, NextCode;
    var a, b := NextCode(lens, l1) + r1, NextCode(lens, l2) + r2;
    PositionOrder(lens, l1, r1, l2, r2);
    CodePosition(lens, l1, r1);
    CodePosition(lens, l2, r2);
    ShlNext(a, MAXBITS - l1);
    ShlShl(a + 1, l2 - l1, MAXBITS - l2);
    if b < Shl(a + 1, l2 - l1) {
      ShlMonotone(b, Shl(a + 1, l2 - l1), MAXBITS - l2);
    }
  }

  lemma RegionOrder(lens: seq<nat>, root: nat, l1: nat, r1: nat, l2: nat, r2: nat)
    requires 1 <= l1 <= l2 <= MAXBITS && root <= l1 && r1 < Count(lens, l1) && Before(l1, r1, l2, r2)
    ensures Region(lens, root, l1, r1) <= Region(lens, root, l2, r2)
  {
    hide Shl, Count, NextCode, Drop;
    var a, b := NextCode(lens, l1) + r1, NextCode(lens, l2) + r2;
    CodeOrder(lens, l1, r1, l2, r2);
    ShlMonotone(a, a + 1, l2 - l1);
    DropMonotone(Shl(a, l2 - l1), b, l2 - l1);
    DropShl(a, l2 - l1);
    DropMonotone(a, Drop(b, l2 - l1), l1 - root);
    DropDrop(b, l2 - l1, l1 - root);
  }

  lemma RegionBound(lens: seq<nat>, root: nat, l: nat, r: nat)
    requires 1 <= l <= MAXBITS && root <= l && r < Count(lens, l) && Kraft(lens) <= Pow2(MAXBITS)
    ensures Region(lens, root, l, r) < Pow2(root)
  {
    hide Kraft, Count, NextCode, Pow2, Drop;
    CodeFits(lens, l, r);
    DropBound(NextCode(lens, l) + r, l - root, l);
  }

  /** A code lies inside its region. */
  lemma RegionSpan(lens: seq<nat>, root: nat, l: nat, r: nat)
    requires 1 <= l <= MAXBITS && root <= l
    ensures var g := Region(lens, root, l, r);
            Shl(g, MAXBITS - root) <= Position(lens, l, r) < Shl(g + 1, MAXBITS - root)
  {
    hide Shl, Count, Space, Pow2, NextCode, Drop, Low, Position;
    var c, d := NextCode(lens, l) + r, l - root;
    var g := Drop(c, d);
    CodePosition(lens, l, r);
    Split(c, d);
    ShlNext(g, d);
    ShlMonotone(Shl(g, d), c, MAXBITS - l);
    ShlMonotone(c, Shl(g + 1, d), MAXBITS - l);
    ShlShl(g, d, MAXBITS - l);
    ShlShl(g + 1, d, MAXBITS - l);
  }

  /** No code of the region is too long for a sub-table of curr bits. */
  ghost predicate Roomy(lens: seq<nat>, root: nat, curr: nat, max: nat, region: nat)
  {
    root + curr == max
    || (root + curr < max <= MAXBITS && Space(lens, root + curr + 1) >= Shl(region + 1, MAXBITS - root))
  }

  lemma RoomyFits(lens: seq<nat>, root: nat, curr: nat, max: nat, l: nat, r: nat)
    requires root < l <= max <= MAXBITS && Roomy(lens, root, curr, max, Region(lens, root, l, r))
    ensures l - root <= curr
  {
    hide Shl, Space, Region;
    if l > root + curr {
      RegionSpan(lens, root, l, r);
      SpaceMonotone(lens, root + curr + 1, l);
    }
  }

  ghost predicate Remaining(lens: seq<nat>, count: seq<nat>, len: nat, r: nat)
  {
    && |count| == MAXBITS + 1 && 1 <= len <= MAXBITS
    && count[len] == Count(lens, len) - r
    && forall l | len < l <= MAXBITS :: count[l] == Count(lens, l)
  }

  /** The look-ahead for the size of a sub-table (lines 254-262), which starts with
      the first code of its region. */
  method SubTableBits(ghost lens: seq<nat>, count: seq<nat>, root: nat, max: nat, len: nat, ghost r: nat) returns (curr: nat)
    requires Remaining(lens, count, len, r) && 1 <= root < len <= max <= MAXBITS && r < Count(lens, len)
    requires Position(lens, len, r) == Shl(Region(lens, root, len, r), MAXBITS - root)
    ensures len - root <= curr <= max - root && Roomy(lens, root, curr, max, Region(lens, root, len, r))
    ensures curr == SubBits(lens, root, max, Region(lens, root, len, r), 0)
  {
    hide Shl, Count, Pow2, Region, SubBits;
    ghost var region := Region(lens, root, len, r);
    ghost var start, size := Position(lens, len, r), Pow2(MAXBITS - root);
    RegionSpan(lens, root, len, r);
    ShlNext(region, MAXBITS - root);
    curr := len - root;
    var left: int := Pow2(curr);
    ShlPow2(curr, MAXBITS - len);
    while curr + root < max
      invariant len - root <= curr <= max - root && left > 0
      invariant Shl(left, MAXBITS - (curr + root)) == size - (if curr + root == len then 0 else Space(lens, curr + root) - start)
      invariant curr + root > len ==> start <= Space(lens, curr + root) < start + size
      decreases max - curr
    {
      var k := curr + root;
      ghost var before := left;
      left := left - count[k];
      LookAhead(lens, count, len, r, k, before, size);
      if left <= 0 {
        break;
      }
      ShlMonotone(0, left, MAXBITS - k);
      ShlZero(MAXBITS - k);
      curr := curr + 1;
      ShlInner(left, MAXBITS - (k + 1));
      ShlDouble(left, MAXBITS - (k + 1));
      left := 2 * left;
    }
    assert Space(lens, root + curr) < Shl(region + 1, MAXBITS - root);
    NotCovered(lens, root, region, curr);
    SubBitsIs(lens, root, max, region, 0, curr);
  }

  /** What is left of a sub-table after the codes of length k are taken out. */
  lemma LookAhead(lens: seq<nat>, count: seq<nat>, len: nat, r: nat, k: nat, left: nat, size: nat)
    requires Remaining(lens, count, len, r) && len <= k < MAXBITS && r < Count(lens, len)
    requires Shl(left, MAXBITS - k) == size - (if k == len then 0 else Space(lens, k) - Position(lens, len, r))
    requires k > len ==> Space(lens, k) >= Position(lens, len, r)
    ensures Space(lens, k + 1) >= Position(lens, len, r)
    ensures left <= count[k] ==> Space(lens, k + 1) >= Position(lens, len, r) + size
    ensures left > count[k] ==> Shl(left - count[k], MAXBITS - k) == size - (Space(lens, k + 1) - Position(lens, len, r))
  {
    hide Shl, Count, Pow2;
    var n := MAXBITS - k;
    if k == len {
      ShlAdd(count[k], r, n);
    }
    assert Space(lens, k + 1) == Space(lens, k) + Shl(Count(lens, k), n);
    assert Space(lens, k + 1) - Position(lens, len, r) == (if k == len then 0 else Space(lens, k) - Position(lens, len, r)) + Shl(count[k], n);
    if left <= count[k] {
      ShlMonotone(left, count[k], n);
    } else {
      ShlAdd(left - count[k], count[k], n);
    }
  }

  // ----- The invariant of the main loop

  /** s comes before the code of length len and rank r. */
  ghost predicate Done(lens: seq<nat>, s: nat, len: nat, r: nat)
  {
    s < |lens| && lens[s] > 0 && Before(lens[s], Rank(lens, s), len, r)
  }

  ghost predicate AllPlaced(kind: CodeType, table: seq<Entry>, root: nat, lens: seq<nat>, len: nat, r: nat)
    requires |lens| <= MaxSymbols(kind)
  {
    forall s: nat | Done(lens, s, len, r) :: Placed(kind, table, root, lens, s)
  }

  /** The sub-table of a code that is too long for the root table is the current
      one, or one that comes before it. */
  ghost predicate Owns(table: seq<Entry>, root: nat, lens: seq<nat>, s: nat, next: nat, curr: nat, region: int)
    requires s < |lens| && root < lens[s]
  {
    var low := Low(Huff(lens, s), root);
    && low < |table|
    && Region(lens, root, lens[s], Rank(lens, s)) <= region
    && (|| table[low].val + Pow2(table[low].op) <= next
        || (table[low].val == next && table[low].op == curr && low == Rev(region, root)))
  }

  ghost predicate AllOwn(table: seq<Entry>, root: nat, lens: seq<nat>, len: nat, r: nat, next: nat, curr: nat, region: int)
  {
    forall s: nat | Done(lens, s, len, r) && lens[s] > root :: Owns(table, root, lens, s, next, curr, region)
  }

  /** The table that the code of length len and rank r goes to. */
  ghost predicate Cursor(table: seq<Entry>, root: nat, lens: seq<nat>, max: nat, len: nat, r: nat, next: nat, curr: nat, region: int)
  {
    if len <= root then next == 0 && curr == root && region == -1 && |table| == Pow2(root)
    else
      && region == Region(lens, root, len, r)
      && Pow2(root) <= next && |table| == next + Pow2(curr)
      && len - root <= curr < 16
      && Rev(region, root) < |table| && table[Rev(region, root)] == Entry(curr, root, next)
      && Roomy(lens, root, curr, max, region)
  }

  lemma RootFilled(kind: CodeType, table: seq<Entry>, table': seq<Entry>, root: nat, lens: seq<nat>, max: nat, t: nat)
    requires ValidLens(lens) && t < |lens| <= MaxSymbols(kind) && 0 < lens[t] <= root <= MAXBITS && Kraft(lens) <= Pow2(MAXBITS)
    requires AllPlaced(kind, table, root, lens, lens[t], Rank(lens, t)) && |table| == Pow2(root)
    requires Filled(table, table', 0, Pow2(root), Huff(lens, t), lens[t], SymbolEntry(kind, t, lens[t]))
    ensures AllPlaced(kind, table', root, lens, lens[t], Rank(lens, t) + 1)
  {
    hide Placed, SymbolEntry, Huff, Pow2, Rank, Filled, Kraft;
    forall s: nat | Done(lens, s, lens[t], Rank(lens, t) + 1)
      ensures Placed(kind, table', root, lens, s)
    {
      if s == t {
        JustFilled(kind, table, table', root, lens, t);
      } else {
        EarlierSymbol(lens, s, t);
        HuffsDiffer(lens, s, t);
        RootFillKeeps(kind, table, table', root, lens, s, Huff(lens, t), lens[t], SymbolEntry(kind, t, lens[t]));
      }
    }
  }

  lemma JustFilled(kind: CodeType, table: seq<Entry>, table': seq<Entry>, root: nat, lens: seq<nat>, t: nat)
    requires t < |lens| <= MaxSymbols(kind) && 0 < lens[t] <= root && |table| == Pow2(root)
    requires Filled(table, table', 0, Pow2(root), Huff(lens, t), lens[t], SymbolEntry(kind, t, lens[t]))
    ensures Placed(kind, table', root, lens, t)
  {
    hide SymbolEntry, Huff, Pow2, Low;
    forall i: nat | i < Pow2(root) && Low(i, lens[t]) == Huff(lens, t)
      ensures table'[i] == SymbolEntry(kind, t, lens[t])
    {
      assert i - 0 == i;
    }
  }

  lemma EarlierSymbol(lens: seq<nat>, s: nat, t: nat)
    requires t < |lens| && lens[t] > 0 && s != t && Done(lens, s, lens[t], Rank(lens, t) + 1)
    ensures Done(lens, s, lens[t], Rank(lens, t))
  {
    hide Rank;
    if lens[s] == lens[t] {
      if s < t {
        RankInjective(lens, s, t);
      } else {
        RankInjective(lens, t, s);
      }
    }
  }

  lemma HuffsDiffer(lens: seq<nat>, s: nat, t: nat)
    requires ValidLens(lens) && t < |lens| && lens[t] > 0 && Done(lens, s, lens[t], Rank(lens, t)) && Kraft(lens) <= Pow2(MAXBITS)
    ensures Low(Huff(lens, t), lens[s]) != Huff(lens, s)
  {
    hide Rank, Kraft, Low, Rev, NextCode, Pow2;
    RankBound(lens, s);
    RankBound(lens, t);
    CodesPrefixFree(lens, lens[s], Rank(lens, s), lens[t], Rank(lens, t));
  }

  lemma SubFilled(kind: CodeType, table: seq<Entry>, table': seq<Entry>, root: nat, lens: seq<nat>, max: nat, t: nat, next: nat, curr: nat, region: int)
    requires ValidLens(lens) && t < |lens| <= MaxSymbols(kind) && 0 < root < lens[t] && Kraft(lens) <= Pow2(MAXBITS)
    requires AllPlaced(kind, table, root, lens, lens[t], Rank(lens, t))
    requires AllOwn(table, root, lens, lens[t], Rank(lens, t), next, curr, region)
    requires Cursor(table, root, lens, max, lens[t], Rank(lens, t), next, curr, region)
    requires Filled(table, table', next, Pow2(curr), Drop(Huff(lens, t), root), lens[t] - root, SymbolEntry(kind, t, lens[t] - root))
    ensures AllPlaced(kind, table', root, lens, lens[t], Rank(lens, t) + 1)
    ensures AllOwn(table', root, lens, lens[t], Rank(lens, t) + 1, next, curr, region)
    ensures table'[Rev(region, root)] == Entry(curr, root, next)
  {
    hide Placed, SymbolEntry, Pow2, Rank, Kraft, Drop, Low, Rev, Roomy, NextCode, Owns, Filled;
    RegionLow(lens, root, lens[t], Rank(lens, t));
    RevBound(region, root);
    FilledOutside(table, table', next, Pow2(curr), Drop(Huff(lens, t), root), lens[t] - root, SymbolEntry(kind, t, lens[t] - root), Rev(region, root));
    forall s: nat | Done(lens, s, lens[t], Rank(lens, t) + 1)
      ensures Placed(kind, table', root, lens, s)
      ensures lens[s] > root ==> Owns(table', root, lens, s, next, curr, region)
    {
      if s == t {
        JustFilledSub(kind, table, table', root, lens, t, next, curr, region);
      } else {
        EarlierFilled(kind, table, table', root, lens, max, s, t, next, curr, region);
      }
    }
  }

  lemma FilledOutside(table: seq<Entry>, table': seq<Entry>, base: nat, size: nat, h: nat, l: nat, e: Entry, k: nat)
    requires Filled(table, table', base, size, h, l, e) && k < base && k < |table|
    ensures k < |table'| && table'[k] == table[k]
  {
  }

  /** A symbol placed before keeps its entries. */
  lemma EarlierFilled(kind: CodeType, table: seq<Entry>, table': seq<Entry>, root: nat, lens: seq<nat>, max: nat, s: nat, t: nat, next: nat, curr: nat, region: int)
    requires ValidLens(lens) && t < |lens| <= MaxSymbols(kind) && 0 < root < lens[t] && Kraft(lens) <= Pow2(MAXBITS)
    requires AllPlaced(kind, table, root, lens, lens[t], Rank(lens, t))
    requires AllOwn(table, root, lens, lens[t], Rank(lens, t), next, curr, region)
    requires Cursor(table, root, lens, max, lens[t], Rank(lens, t), next, curr, region)
    requires Filled(table, table', next, Pow2(curr), Drop(Huff(lens, t), root), lens[t] - root, SymbolEntry(kind, t, lens[t] - root))
    requires s != t && Done(lens, s, lens[t], Rank(lens, t) + 1)
    ensures s < |lens| && Placed(kind, table', root, lens, s)
    ensures lens[s] > root ==> Owns(table', root, lens, s, next, curr, region)
  {
    hide Placed, SymbolEntry, Pow2, Rank, Kraft, Drop, Low, Rev, Roomy, NextCode;
    RegionLow(lens, root, lens[t], Rank(lens, t));
    RevBound(region, root);
    EarlierSymbol(lens, s, t);
    HuffsDiffer(lens, s, t);
    assert Placed(kind, table, root, lens, s);
    SubFillKeeps(kind, table, table', root, lens, s, next, curr, Huff(lens, t), lens[t], SymbolEntry(kind, t, lens[t] - root));
    if lens[s] > root {
      assert Owns(table, root, lens, s, next, curr, region);
      LowBound(Huff(lens, s), root);
    }
  }

  lemma RevBound(c: nat, n: nat)
    ensures Rev(c, n) < Pow2(n)
  {
  }

  lemma LowBound(x: nat, n: nat)
    ensures Low(x, n) < Pow2(n)
  {
  }

  lemma JustFilledSub(kind: CodeType, table: seq<Entry>, table': seq<Entry>, root: nat, lens: seq<nat>, t: nat, next: nat, curr: nat, region: int)
    requires t < |lens| <= MaxSymbols(kind) && 0 < root < lens[t] && region >= 0
    requires Low(Huff(lens, t), root) == Rev(region, root)
    requires region == Region(lens, root, lens[t], Rank(lens, t))
    requires Pow2(root) <= next && |table| == next + Pow2(curr) && lens[t] - root <= curr < 16
    requires Filled(table, table', next, Pow2(curr), Drop(Huff(lens, t), root), lens[t] - root, SymbolEntry(kind, t, lens[t] - root))
    requires Rev(region, root) < |table| && table'[Rev(region, root)] == Entry(curr, root, next)
    ensures Placed(kind, table', root, lens, t)
    ensures Owns(table', root, lens, t, next, curr, region)
  {
    hide SymbolEntry, Huff, Pow2, Low, Drop, Rank, Region, Rev;
    var d := lens[t] - root;
    forall j: nat | j < Pow2(curr) && Low(j, d) == Drop(Huff(lens, t), root)
      ensures table'[next + j] == SymbolEntry(kind, t, d)
    {
      assert next + j - next == j;
    }
  }

  /** Nothing lies between a code and the one after it. */
  lemma DoneNext(lens: seq<nat>, s: nat, len: nat, m: nat)
    requires 1 <= len < m && forall l | len < l < m :: Count(lens, l) == 0
    ensures Done(lens, s, m, 0) ==> Done(lens, s, len, Count(lens, len))
  {
    hide Rank, Count;
    if Done(lens, s, m, 0) {
      RankBound(lens, s);
    }
  }

  /** A new sub-table for the code of t. */
  lemma SubLinked(kind: CodeType, table: seq<Entry>, table': seq<Entry>, root: nat, lens: seq<nat>, max: nat, t: nat, next: nat, curr: nat, region: int, curr': nat)
    requires ValidLens(lens) && t < |lens| <= MaxSymbols(kind) && 0 < root < lens[t] && Kraft(lens) <= Pow2(MAXBITS)
    requires Pow2(root) <= |table| == next + Pow2(curr)
    requires AllPlaced(kind, table, root, lens, lens[t], Rank(lens, t))
    requires AllOwn(table, root, lens, lens[t], Rank(lens, t), next, curr, region)
    requires region >= 0 ==> Rev(region, root) != Low(Huff(lens, t), root)
    requires region <= Region(lens, root, lens[t], Rank(lens, t))
    requires Linked(table, table', Low(Huff(lens, t), root), Entry(curr', root, |table|), Pow2(curr'))
    ensures AllPlaced(kind, table', root, lens, lens[t], Rank(lens, t))
    ensures AllOwn(table', root, lens, lens[t], Rank(lens, t), |table|, curr', Region(lens, root, lens[t], Rank(lens, t)))
  {
    hide Placed, Pow2, Rank, Kraft, Drop, Low, Rev, NextCode, Region;
    var region' := Region(lens, root, lens[t], Rank(lens, t));
    RegionLow(lens, root, lens[t], Rank(lens, t));
    RankBound(lens, t);
    RegionBound(lens, root, lens[t], Rank(lens, t));
    forall s: nat | Done(lens, s, lens[t], Rank(lens, t))
      ensures Placed(kind, table', root, lens, s)
      ensures lens[s] > root ==> Owns(table', root, lens, s, |table|, curr', region')
    {
      HuffsDiffer(lens, s, t);
      assert Placed(kind, table, root, lens, s);
      if lens[s] > root {
        RankBound(lens, s);
        RegionBound(lens, root, lens[s], Rank(lens, s));
        RegionLow(lens, root, lens[s], Rank(lens, s));
        assert Owns(table, root, lens, s, next, curr, region);
        RegionsDiffer(root, Region(lens, root, lens[s], Rank(lens, s)), region');
      }
      LinkKeeps(kind, table, table', root, lens, s, Huff(lens, t), Entry(curr', root, |table|), Pow2(curr'));
    }
  }

  lemma RegionsDiffer(root: nat, a: nat, b: nat)
    requires a < Pow2(root) && b < Pow2(root) && a != b
    ensures Rev(a, root) != Rev(b, root)
  {
    if Rev(a, root) == Rev(b, root) {
      RevInjective(a, b, root);
    }
  }

  // ----- The builder

  /** The empty set has a table that makes every lookup fail. */
  const EMPTY_TABLE := [Entry(INVALID_OP, 1, 0), Entry(INVALID_OP, 1, 0)]

  /** Sets that are over-subscribed, and incomplete ones unless they are the lone
      one-bit code that literal and distance codes may have. */
  ghost predicate BadSet(kind: CodeType, lens: seq<nat>, max: nat)
  {
    Kraft(lens) > Pow2(MAXBITS) || (Kraft(lens) < Pow2(MAXBITS) && (kind.CODES? || max != 1))
  }

  /** All the codes are in the tables, and what is not a code is marked. */
  ghost predicate Decodes(kind: CodeType, lens: seq<nat>, table: seq<Entry>, root: nat)
    requires |lens| <= MaxSymbols(kind)
  {
    && (forall s: nat, hold: nat | s < |lens| && StartsWith(lens, hold, s) ::
          Lookup(table, root, hold) == Some(SymbolEntry(kind, s, lens[s])))
    && (Kraft(lens) < Pow2(MAXBITS) ==>
          forall hold: nat | (forall s: nat | s < |lens| :: !StartsWith(lens, hold, s)) ::
            Lookup(table, root, hold) == Some(Entry(INVALID_OP, 1, 0)))
  }

  /** The table that follows the code (len, r) of the loop, however it goes on. */
  ghost predicate Sized(table: seq<Entry>, root: nat, region: int)
  {
    root <= MAXBITS && region >= -1 && |table| <= Pow2(root) + Shl(region + 1, MAXBITS - root)
  }

  /** Lines 245-274: a sub-table of the right size at the end of the tables, and
      the link to it in the root table. */
  method OpenSubTable(kind: CodeType, lens: seq<nat>, count: seq<nat>, table: seq<Entry>, root: nat, max: nat, low: nat, len: nat, garbage: Entry,
                      ghost len0: nat, ghost r0: nat, ghost t: nat, lastNext: nat, lastCurr: nat, ghost region: int)
    returns (ok: bool, table': seq<Entry>, next: nat, curr: nat)
    requires ValidLens(lens) && t < |lens| <= MaxSymbols(kind) && Kraft(lens) <= Pow2(MAXBITS)
    requires 0 < root < len == lens[t] <= max <= MAXBITS && 1 <= len0 <= len && low == Low(Huff(lens, t), root)
    requires r0 < Count(lens, len0) && Before(len0, r0, len, Rank(lens, t)) && Remaining(lens, count, len, Rank(lens, t))
    requires if len0 <= root then region == -1 else region == Region(lens, root, len0, r0)
    requires region >= 0 ==> Rev(region, root) != low
    requires AllPlaced(kind, table, root, lens, len, Rank(lens, t)) && AllOwn(table, root, lens, len, Rank(lens, t), lastNext, lastCurr, region)
    requires Sized(table, root, region) && Pow2(root) <= |table| == lastNext + Pow2(lastCurr)
    requires |table| == Pow2(root) + SizeTo(lens, root, max, region + 1)
    requires Position(lens, len, Rank(lens, t)) == Position(lens, len0, r0) + Pow2(MAXBITS - len0)
    ensures var size := Pow2(root) + SizeTo(lens, root, max, Region(lens, root, len, Rank(lens, t)) + 1);
            && ok == !(kind.LENS? && size >= ENOUGH - MAXD)
            && (ok ==> |table'| == size)
    ensures var g := Region(lens, root, len, Rank(lens, t));
            ok ==>
              && AllPlaced(kind, table', root, lens, len, Rank(lens, t))
              && AllOwn(table', root, lens, len, Rank(lens, t), next, curr, g)
              && Cursor(table', root, lens, max, len, Rank(lens, t), next, curr, g)
              && Sized(table', root, g)
  {
    hide Count, Rank, Kraft, Low, Rev, Pow2, Shl, NextCode, AllPlaced, AllOwn, Roomy, Region, Cursor, SizeTo, SubBits, Position;
    next := lastNext + Pow2(lastCurr);
    RankBound(lens, t);
    FirstOfRegion(lens, root, max, len0, r0, len, Rank(lens, t), region);
    curr := SubTableBits(lens, count, root, max, len, Rank(lens, t));
    OneMoreTable(lens, root, max, Region(lens, root, len, Rank(lens, t)), curr);
    if kind.LENS? && |table| + Pow2(curr) >= ENOUGH - MAXD {
      return false, table, next, curr;
    }
    OffsetBound(lens, table, root, len0, r0, len, Rank(lens, t), region, curr, max);
    LowBound(Huff(lens, t), root);
    table' := table[low := Entry(curr, root, next % 0x1_0000)] + seq(Pow2(curr), _ => garbage);
    NewSub(kind, table, table', root, lens, max, lastNext, lastCurr, t, next, curr, region);
    ok := true;
  }

  lemma OneMoreTable(lens: seq<nat>, root: nat, max: nat, g: nat, curr: nat)
    requires root <= max <= MAXBITS && curr == SubBits(lens, root, max, g, 0) && curr > 0
    ensures SizeTo(lens, root, max, g + 1) == SizeTo(lens, root, max, g) + Pow2(curr)
  {
    hide SubBits, Pow2;
  }

  /** A code lies inside its region to its end. */
  lemma RegionEnd(lens: seq<nat>, root: nat, l: nat, r: nat)
    requires 1 <= l <= MAXBITS && root <= l
    ensures Position(lens, l, r) + Pow2(MAXBITS - l) <= Shl(Region(lens, root, l, r) + 1, MAXBITS - root)
  {
    hide Shl, Count, Space, Pow2, NextCode, Drop, Low, Position;
    var c, d := NextCode(lens, l) + r, l - root;
    var g := Drop(c, d);
    CodePosition(lens, l, r);
    Split(c, d);
    ShlNext(g, d);
    ShlMonotone(c + 1, Shl(g + 1, d), MAXBITS - l);
    ShlNext(c, MAXBITS - l);
    ShlShl(g + 1, d, MAXBITS - l);
  }

  /** A code in another region than the one before it is the first of its region, and
      the regions in between need no sub-table. */
  lemma FirstOfRegion(lens: seq<nat>, root: nat, max: nat, len0: nat, r0: nat, len: nat, r: nat, region: int)
    requires 1 <= root < len <= max <= MAXBITS && 1 <= len0 <= len && r0 < Count(lens, len0) && r < Count(lens, len)
    requires Before(len0, r0, len, r) && Kraft(lens) <= Pow2(MAXBITS)
    requires if len0 <= root then region == -1 else region == Region(lens, root, len0, r0)
    requires region >= 0 ==> Rev(region, root) != Low(Rev(NextCode(lens, len) + r, len), root)
    requires Position(lens, len, r) == Position(lens, len0, r0) + Pow2(MAXBITS - len0)
    ensures Position(lens, len, r) == Shl(Region(lens, root, len, r), MAXBITS - root)
    ensures SizeTo(lens, root, max, region + 1) == SizeTo(lens, root, max, Region(lens, root, len, r))
  {
    hide Count, Rev, NextCode, Kraft, Region, Low, Pow2, Shl, SizeTo, Space, SubBits;
    var g, n := Region(lens, root, len, r), MAXBITS - root;
    RegionSpan(lens, root, len, r);
    if len0 > root {
      RegionOrder(lens, root, len0, r0, len, r);
      RegionLow(lens, root, len, r);
      RegionEnd(lens, root, len0, r0);
      ShlMonotone(region + 1, g, n);
    } else {
      AfterShort(lens, root, len0, r0, len, r);
      var x := NextCode(lens, root) + Count(lens, root);
      if g < x {
        ShlMonotone(g + 1, x, n);
      } else if g > x {
        ShlMonotone(x, g, n);
      }
      forall h: nat | h < g
        ensures SubBits(lens, root, max, h, 0) == 0
      {
        ShlMonotone(h + 1, g, n);
        SubBitsIs(lens, root, max, h, 0, 0);
      }
      SizeRange(lens, root, max, 0, g, 0);
    }
  }

  lemma AfterShort(lens: seq<nat>, root: nat, len0: nat, r0: nat, len: nat, r: nat)
    requires 1 <= len0 <= root < len <= MAXBITS && r0 < Count(lens, len0)
    requires Position(lens, len, r) == Position(lens, len0, r0) + Pow2(MAXBITS - len0)
    ensures Position(lens, len, r) == Space(lens, root + 1) == Shl(NextCode(lens, root) + Count(lens, root), MAXBITS - root)
  {
    hide Shl, Count, Space, Pow2, NextCode;
    PositionEnd(lens, len0, r0);
    SpaceMonotone(lens, len0 + 1, root + 1);
    SpaceMonotone(lens, root + 1, len);
    ShortEnd(lens, root);
  }

  /** The tables that are built in the end, when the code is complete or fits in the
      root table. */
  ghost predicate Exact(lens: seq<nat>, root: nat, max: nat)
  {
    Kraft(lens) == Pow2(MAXBITS) || root == max
  }

  /** After the last code all regions have had their turn. */
  lemma NoMoreRegions(lens: seq<nat>, root: nat, max: nat, region: int)
    requires 1 <= root <= max <= MAXBITS && IsMax(lens, max) && Exact(lens, root, max) && Kraft(lens) <= Pow2(MAXBITS)
    requires if max <= root then region == -1 else region == Region(lens, root, max, Count(lens, max) - 1)
    ensures Pow2(root) + SizeTo(lens, root, max, region + 1) == TableSize(lens, root, max)
  {
    hide Shl, Pow2, SizeTo, SubBits, Region, Rev;
    if max == root {
      forall h: nat | h < Pow2(root)
        ensures SubBits(lens, root, max, h, 0) == 0
      {
        SubBitsIs(lens, root, max, h, 0, 0);
      }
      SizeRange(lens, root, max, 0, Pow2(root), 0);
    } else {
      LastRegion(lens, root, max);
    }
  }

  lemma LastRegion(lens: seq<nat>, root: nat, max: nat)
    requires 1 <= root < max <= MAXBITS && IsMax(lens, max) && Kraft(lens) == Pow2(MAXBITS)
    ensures Region(lens, root, max, Count(lens, max) - 1) + 1 == Pow2(root)
  {
    hide Shl, Pow2, Region, Count, Space;
    var r := Count(lens, max) - 1;
    RegionBound(lens, root, max, r);
    RegionEnd(lens, root, max, r);
    FlatSpace(lens, max, MAXBITS + 1);
    NextPosition(lens, max, r);
    ShlPow2(root, MAXBITS - root);
    if Region(lens, root, max, r) + 1 < Pow2(root) {
      ShlMonotone(Region(lens, root, max, r) + 1, Pow2(root), MAXBITS - root);
    }
  }

  /** Lines 203-236: the entries of one symbol, and the next code. */
  method PlaceSymbol(kind: CodeType, lens: seq<nat>, table: seq<Entry>, root: nat, max: nat, t: nat, huff: nat, next: nat, curr: nat, drop: nat, ghost region: int)
    returns (table': seq<Entry>, huff': nat)
    requires ValidLens(lens) && t < |lens| <= MaxSymbols(kind) && 0 < root <= MAXBITS && lens[t] > 0 && Kraft(lens) <= Pow2(MAXBITS)
    requires AllPlaced(kind, table, root, lens, lens[t], Rank(lens, t))
    requires AllOwn(table, root, lens, lens[t], Rank(lens, t), next, curr, region)
    requires Cursor(table, root, lens, max, lens[t], Rank(lens, t), next, curr, region)
    requires huff == Huff(lens, t) == Rev(NextCode(lens, lens[t]) + Rank(lens, t), lens[t]) && drop == if lens[t] <= root then 0 else root
    ensures AllPlaced(kind, table', root, lens, lens[t], Rank(lens, t) + 1)
    ensures AllOwn(table', root, lens, lens[t], Rank(lens, t) + 1, next, curr, region)
    ensures Cursor(table', root, lens, max, lens[t], Rank(lens, t), next, curr, region)
    ensures |table'| == |table| && huff' == Rev(NextCode(lens, lens[t]) + (Rank(lens, t) + 1), lens[t])
  {
    hide Rank, Kraft, Low, Drop, Rev, Pow2, NextCode, SymbolEntry, Huff, AllPlaced, AllOwn, Roomy, Region, Filled;
    var len := lens[t];
    RevBound(NextCode(lens, len) + Rank(lens, t), len);
    if len <= root {
      DropNothing(huff);
    } else {
      DropBound(huff, root, len);
    }
    table' := Replicate(table, next, curr, Drop(huff, drop), len - drop, SymbolEntry(kind, t, len - drop));
    AfterFill(kind, table, table', root, lens, max, t, next, curr, region);
    BackIncRev(NextCode(lens, len) + Rank(lens, t), len);
    huff' := BackwardsIncrement(huff, len);
  }

  lemma CursorMeans(table: seq<Entry>, root: nat, lens: seq<nat>, max: nat, len: nat, r: nat, next: nat, curr: nat, region: int)
    requires Cursor(table, root, lens, max, len, r, next, curr, region)
    ensures Pow2(root) <= |table| == next + Pow2(curr) && region == if len <= root then -1 else Region(lens, root, len, r)
  {
    hide Pow2, Rev, Roomy, Region;
  }

  /** Lines 202-274: all the symbols, in order of length and then of rank. */
  method FillTables(kind: CodeType, lens: seq<nat>, work: seq<nat>, counts: seq<nat>, min: nat, max: nat, root: nat, garbage: Entry)
    returns (ok: bool, table: seq<Entry>, huff: nat)
    requires ValidLens(lens) && |lens| <= MaxSymbols(kind) && Kraft(lens) <= Pow2(MAXBITS)
    requires SortedSymbols(lens, work) && Counts(lens, counts)
    requires IsMin(lens, min) && IsMax(lens, max) && min <= root <= max
    ensures !ok ==> kind.LENS? && TableSize(lens, root, max) >= ENOUGH - MAXD
    ensures ok && Exact(lens, root, max) ==> |table| == TableSize(lens, root, max) && (kind.LENS? ==> |table| < ENOUGH - MAXD)
    ensures ok ==> AllPlaced(kind, table, root, lens, max, Count(lens, max))
    ensures ok && root == max ==> |table| == Pow2(root)
    ensures ok ==> huff == Rev(NextCode(lens, max) + Count(lens, max), max)
  {
    hide Count, Rank, Offs, Kraft, Low, Drop, Rev, Pow2, Shl, NextCode, SymbolEntry, Huff, InPlace;
    hide AllPlaced, AllOwn, Roomy, Region, Filled, SortedSymbols, IsMax, IsLink, SizeTo, Position, Exact, Cursor, IsMin, ValidLens;
    MinMax(lens, min, max);
    var count := counts;
    huff := 0;
    var sym: nat, len: nat, next: nat, curr: nat, drop: nat, low: int := 0, min, 0, root, 0, -1;
    table := seq(Pow2(root), _ => garbage);
    if kind.LENS? && |table| >= ENOUGH - MAXD {
      return false, table, huff;
    }
    ghost var r: nat, region: int := 0, -1;
    FirstCode(kind, lens, table, min, max, root);
    NoSize(lens, root, max);
    while true
      invariant 1 <= len <= max && sym == Offs(lens, len) + r && r < Count(lens, len)
      invariant huff == Rev(NextCode(lens, len) + r, len)
      invariant Remaining(lens, count, len, r)
      invariant drop == if len <= root then 0 else root
      invariant region >= -1 && low == if region < 0 then -1 else Rev(region, root)
      invariant AllPlaced(kind, table, root, lens, len, r)
      invariant AllOwn(table, root, lens, len, r, next, curr, region)
      invariant Cursor(table, root, lens, max, len, r, next, curr, region)
      invariant Sized(table, root, region)
      invariant |table| == Pow2(root) + SizeTo(lens, root, max, region + 1) && (kind.LENS? ==> |table| < ENOUGH - MAXD)
      invariant region < 0 <==> len <= root
      decreases max - len, Count(lens, len) - r
    {
      CurrentSymbol(lens, work, len, r);
      table, huff := PlaceSymbol(kind, lens, table, root, max, work[sym], huff, next, curr, drop, region);
      CursorMeans(table, root, lens, max, len, r, next, curr, region);
      sym := sym + 1;
      count := count[len := count[len] - 1];
      ghost var len0, r0 := len, r;
      if count[len] == 0 {
        if len == max {
          if Exact(lens, root, max) {
            NoMoreRegions(lens, root, max, region);
          }
          return true, table, huff;
        }
        NextLength(lens, work, max, len);
        OffsNext(lens, len);
        len := lens[work[sym]];
        r := 0;
        NextPositionLonger(lens, len0, len);
        MoveOn(kind, table, root, lens, len0, len, next, curr, region);
        CurrentCount(lens, work[sym]);
      } else {
        NextPosition(lens, len, r);
        r := r + 1;
      }
      if len > root && Low(huff, root) != low {
        drop := root;
        low := Low(huff, root);
        CurrentSymbol(lens, work, len, r);
        ok, table, next, curr := OpenSubTable(kind, lens, count, table, root, max, low, len, garbage, len0, r0, work[sym], next, curr, region);
        SizeInside(lens, root, max, len, r);
        if !ok {
          return;
        }
        region := Region(lens, root, len, r);
        RegionLow(lens, root, len, r);
      } else {
        Stay(table, root, lens, max, len0, r0, len, r, next, curr, region);
      }
    }
  }

  lemma SizeInside(lens: seq<nat>, root: nat, max: nat, len: nat, r: nat)
    requires 1 <= root < len <= max <= MAXBITS && r < Count(lens, len) && Kraft(lens) <= Pow2(MAXBITS)
    ensures Pow2(root) + SizeTo(lens, root, max, Region(lens, root, len, r) + 1) <= TableSize(lens, root, max)
  {
    hide Shl, Pow2, Region, Count, Kraft, SizeTo;
    RegionBound(lens, root, len, r);
    SizeMonotone(lens, root, max, Region(lens, root, len, r) + 1, Pow2(root));
  }

  lemma MinMax(lens: seq<nat>, min: nat, max: nat)
    requires IsMin(lens, min) && IsMax(lens, max)
    ensures 1 <= min && max <= MAXBITS && Count(lens, min) > 0
  {
  }

  lemma FirstCode(kind: CodeType, lens: seq<nat>, table: seq<Entry>, min: nat, max: nat, root: nat)
    requires |lens| <= MaxSymbols(kind) && IsMin(lens, min) && min <= root && |table| == Pow2(root) && root <= MAXBITS
    ensures Offs(lens, min) == 0 && NextCode(lens, min) == 0 && Rev(0, min) == 0 && Shl(0, MAXBITS - root) == 0
    ensures AllPlaced(kind, table, root, lens, min, 0) && AllOwn(table, root, lens, min, 0, 0, root, -1)
    ensures Cursor(table, root, lens, max, min, 0, 0, root, -1)
  {
    hide Count, Rank, Placed, Owns, Pow2;
    FirstIsZero(lens, min);
    RevZero(min);
    ShlZero(MAXBITS - root);
    forall s: nat | Done(lens, s, min, 0)
      ensures false
    {
      RankBound(lens, s);
    }
  }

  lemma {:induction false} FirstIsZero(lens: seq<nat>, m: nat)
    requires forall l | 1 <= l < m :: Count(lens, l) == 0
    ensures Offs(lens, m) == 0 && NextCode(lens, m) == 0
  {
    if m > 1 { FirstIsZero(lens, m - 1); }
  }

  lemma {:induction false} RevZero(n: nat)
    ensures Rev(0, n) == 0
  {
    if n > 0 { RevZero(n - 1); }
  }

  lemma CurrentSymbol(lens: seq<nat>, work: seq<nat>, len: nat, r: nat)
    requires ValidLens(lens) && SortedSymbols(lens, work) && 1 <= len <= MAXBITS && r < Count(lens, len)
    ensures var i := Offs(lens, len) + r;
            && i < |work| && work[i] < |lens| && lens[work[i]] == len && Rank(lens, work[i]) == r
            && Huff(lens, work[i]) == Rev(NextCode(lens, len) + r, len)
  {
    hide Rank, Rev, NextCode;
    var i := Offs(lens, len) + r;
    OffsNext(lens, len);
    OffsMonotone(lens, len + 1, MAXBITS + 1);
    assert InPlace(lens, work, i);
    var m := lens[work[i]];
    RankBound(lens, work[i]);
    OffsNext(lens, m);
    if m < len {
      OffsMonotone(lens, m + 1, len);
    } else if m > len {
      OffsMonotone(lens, len + 1, m);
    }
  }

  lemma OffsNext(lens: seq<nat>, len: nat)
    requires len >= 1
    ensures Offs(lens, len + 1) == Offs(lens, len) + Count(lens, len)
  {
  }

  lemma CurrentCount(lens: seq<nat>, s: nat)
    requires s < |lens| && lens[s] > 0
    ensures Count(lens, lens[s]) > 0
  {
    RankBound(lens, s);
  }

  /** The code of t is in its table, and nothing else was disturbed. */
  lemma AfterFill(kind: CodeType, table: seq<Entry>, table': seq<Entry>, root: nat, lens: seq<nat>, max: nat, t: nat, next: nat, curr: nat, region: int)
    requires ValidLens(lens) && t < |lens| <= MaxSymbols(kind) && 0 < root <= MAXBITS && lens[t] > 0 && Kraft(lens) <= Pow2(MAXBITS)
    requires AllPlaced(kind, table, root, lens, lens[t], Rank(lens, t))
    requires AllOwn(table, root, lens, lens[t], Rank(lens, t), next, curr, region)
    requires Cursor(table, root, lens, max, lens[t], Rank(lens, t), next, curr, region)
    requires var drop := if lens[t] <= root then 0 else root;
             Filled(table, table', next, Pow2(curr), Drop(Huff(lens, t), drop), lens[t] - drop, SymbolEntry(kind, t, lens[t] - drop))
    ensures AllPlaced(kind, table', root, lens, lens[t], Rank(lens, t) + 1)
    ensures AllOwn(table', root, lens, lens[t], Rank(lens, t) + 1, next, curr, region)
    ensures Cursor(table', root, lens, max, lens[t], Rank(lens, t), next, curr, region)
    ensures |table'| == |table|
  {
    hide Rank, Kraft, Low, Drop, Rev, Pow2, NextCode, SymbolEntry, Huff, AllPlaced, Roomy, Region;
    if lens[t] <= root {
      DropNothing(Huff(lens, t));
      RootFilled(kind, table, table', root, lens, max, t);
    } else {
      SubFilled(kind, table, table', root, lens, max, t, next, curr, region);
    }
  }

  lemma MoveOn(kind: CodeType, table: seq<Entry>, root: nat, lens: seq<nat>, len: nat, m: nat, next: nat, curr: nat, region: int)
    requires |lens| <= MaxSymbols(kind) && 1 <= len < m && forall l | len < l < m :: Count(lens, l) == 0
    requires AllPlaced(kind, table, root, lens, len, Count(lens, len))
    requires AllOwn(table, root, lens, len, Count(lens, len), next, curr, region)
    ensures AllPlaced(kind, table, root, lens, m, 0) && AllOwn(table, root, lens, m, 0, next, curr, region)
  {
    hide Placed, Owns, Done, Count;
    forall s: nat | Done(lens, s, m, 0)
      ensures Done(lens, s, len, Count(lens, len))
    {
      DoneNext(lens, s, len, m);
    }
  }

  /** The offset of a new sub-table fits in sixteen bits. */
  lemma OffsetBound(lens: seq<nat>, table: seq<Entry>, root: nat, len0: nat, r0: nat, len: nat, r: nat, region: int, curr: nat, max: nat)
    requires Sized(table, root, region) && 0 < root < len <= max <= MAXBITS && 1 <= len0 <= len && curr <= max - root
    requires r0 < Count(lens, len0) && r < Count(lens, len) && Before(len0, r0, len, r) && Kraft(lens) <= Pow2(MAXBITS)
    requires if len0 <= root then region == -1 else region == Region(lens, root, len0, r0)
    requires region >= 0 ==> Rev(region, root) != Low(Rev(NextCode(lens, len) + r, len), root)
    ensures region < Region(lens, root, len, r) < Pow2(root)
    ensures |table| < 0x1_0000
    ensures |table| + Pow2(curr) <= Pow2(root) + Shl(Region(lens, root, len, r) + 1, MAXBITS - root)
  {
    hide Count, Rev, NextCode, Kraft, Region, Low, Pow2, Shl;
    var g := Region(lens, root, len, r);
    RegionBound(lens, root, len, r);
    RegionLow(lens, root, len, r);
    if len0 > root {
      RegionOrder(lens, root, len0, r0, len, r);
    }
    ShlMonotone(region + 1, g, MAXBITS - root);
    ShlNext(g, MAXBITS - root);
    Pow2Monotone(curr, MAXBITS - root);
    ShlMonotone(g + 1, Pow2(root), MAXBITS - root);
    ShlPow2(root, MAXBITS - root);
    Pow2Monotone(root, MAXBITS);
    Pow2Limit();
    Pow2Positive(MAXBITS - root);
  }

  lemma Pow2Limit()
    ensures Pow2(MAXBITS) == 0x8000
  {
    assert Pow2(5) == 32;
    assert Pow2(10) == 1024;
  }

  lemma Pow2Positive(n: nat)
    ensures Pow2(n) > 0
  {
  }

  /** The new sub-table is the one for the code of t. */
  lemma NewSub(kind: CodeType, table: seq<Entry>, table': seq<Entry>, root: nat, lens: seq<nat>, max: nat, oldNext: nat, oldCurr: nat, t: nat, next: nat, curr: nat, region: int)
    requires ValidLens(lens) && t < |lens| <= MaxSymbols(kind) && 0 < root < lens[t] <= max <= MAXBITS && Kraft(lens) <= Pow2(MAXBITS)
    requires |table| == next < 0x1_0000 && Pow2(root) <= next
    requires AllPlaced(kind, table, root, lens, lens[t], Rank(lens, t))
    requires oldNext + Pow2(oldCurr) == next && AllOwn(table, root, lens, lens[t], Rank(lens, t), oldNext, oldCurr, region)
    requires region >= 0 ==> Rev(region, root) != Low(Huff(lens, t), root)
    requires region < Region(lens, root, lens[t], Rank(lens, t)) < Pow2(root)
    requires lens[t] - root <= curr <= max - root && Roomy(lens, root, curr, max, Region(lens, root, lens[t], Rank(lens, t)))
    requires Linked(table, table', Low(Huff(lens, t), root), Entry(curr, root, next % 0x1_0000), Pow2(curr))
    ensures AllPlaced(kind, table', root, lens, lens[t], Rank(lens, t))
    ensures AllOwn(table', root, lens, lens[t], Rank(lens, t), next, curr, Region(lens, root, lens[t], Rank(lens, t)))
    ensures Cursor(table', root, lens, max, lens[t], Rank(lens, t), next, curr, Region(lens, root, lens[t], Rank(lens, t)))
  {
    hide Rank, Kraft, Low, Rev, Pow2, NextCode, AllPlaced, AllOwn, Roomy, Region;
    RegionLow(lens, root, lens[t], Rank(lens, t));
    SubLinked(kind, table, table', root, lens, max, t, oldNext, oldCurr, region, curr);
  }

  /** A code with the same first bits as the last one stays in its sub-table. */
  lemma Stay(table: seq<Entry>, root: nat, lens: seq<nat>, max: nat, len0: nat, r0: nat, len: nat, r: nat, next: nat, curr: nat, region: int)
    requires 0 < root && len <= max <= MAXBITS && 1 <= len0 <= len && Kraft(lens) <= Pow2(MAXBITS)
    requires r0 < Count(lens, len0) && r < Count(lens, len)
    requires Cursor(table, root, lens, max, len0, r0, next, curr, region) && (len > root ==> region >= 0)
    requires len > root ==> Low(Rev(NextCode(lens, len) + r, len), root) == Rev(region, root)
    ensures Cursor(table, root, lens, max, len, r, next, curr, region)
  {
    hide Count, Kraft, Low, Rev, Pow2, NextCode, Roomy, Region;
    if len <= root {
      return;
    }
    RegionBound(lens, root, len0, r0);
    RegionBound(lens, root, len, r);
    RegionLow(lens, root, len, r);
    if Region(lens, root, len, r) != region {
      RegionsDiffer(root, Region(lens, root, len, r), region);
    }
    RoomyFits(lens, root, curr, max, len, r);
  }

  // ----- zlib_inflate_table as a whole

  lemma AllDone(lens: seq<nat>, max: nat, s: nat)
    requires ValidLens(lens) && IsMax(lens, max) && s < |lens| && lens[s] > 0
    ensures max > 0 && lens[s] <= max && Done(lens, s, max, Count(lens, max))
  {
    RankBound(lens, s);
  }

  lemma TablesDecode(kind: CodeType, lens: seq<nat>, max: nat, table: seq<Entry>, root: nat)
    requires ValidLens(lens) && |lens| <= MaxSymbols(kind) && IsMax(lens, max)
    requires AllPlaced(kind, table, root, lens, max, Count(lens, max))
    ensures forall s: nat, hold: nat | s < |lens| && StartsWith(lens, hold, s) ::
              Lookup(table, root, hold) == Some(SymbolEntry(kind, s, lens[s]))
  {
    hide Placed, Lookup, SymbolEntry, Count, Huff, Low;
    forall s: nat, hold: nat | s < |lens| && StartsWith(lens, hold, s)
      ensures Lookup(table, root, hold) == Some(SymbolEntry(kind, s, lens[s]))
    {
      AllDone(lens, max, s);
      PlacedLookup(kind, table, root, lens, s, hold);
    }
  }

  /** A set with one-bit codes only that is neither empty, complete nor
      over-subscribed has a single code, which is zero. */
  lemma LoneCode(lens: seq<nat>)
    requires ValidLens(lens) && IsMax(lens, 1) && Kraft(lens) < Pow2(MAXBITS)
    ensures Count(lens, 1) == 1
    ensures exists s: nat :: s < |lens| && lens[s] == 1 && Huff(lens, s) == 0
  {
    hide Shl, Pow2;
    SpaceOfOnes(lens, MAXBITS + 1);
    if Count(lens, 1) >= 2 {
      ShlMonotone(2, Count(lens, 1), MAXBITS - 1);
      ShlPow2(1, MAXBITS - 1);
      assert Pow2(1) == 2 by { Pow2One(); }
    }
    var s := Nth(lens, 1, 0, |lens|);
    assert Rev(0, 1) == 0;
  }

  lemma Pow2One()
    ensures Pow2(1) == 2
  {
  }

  lemma {:induction false} SpaceOfOnes(lens: seq<nat>, m: nat)
    requires 2 <= m <= MAXBITS + 1 && forall l | 1 < l <= MAXBITS :: Count(lens, l) == 0
    ensures Space(lens, m) == Shl(Count(lens, 1), MAXBITS - 1)
  {
    hide Count, Shl;
    if m > 2 {
      SpaceOfOnes(lens, m - 1);
      ShlZero(MAXBITS - (m - 1));
    }
  }

  /** With the lone code filled in, the other index is the one left to mark. */
  lemma LoneDecodes(kind: CodeType, lens: seq<nat>, table: seq<Entry>)
    requires ValidLens(lens) && |lens| <= MaxSymbols(kind) && IsMax(lens, 1) && Kraft(lens) < Pow2(MAXBITS)
    requires AllPlaced(kind, table, 1, lens, 1, Count(lens, 1)) && |table| == 2
    ensures Decodes(kind, lens, table[1 := Entry(INVALID_OP, 1, 0)], 1)
  {
    hide Lookup, SymbolEntry, Count, Kraft;
    LoneCode(lens);
    var t: nat :| t < |lens| && lens[t] == 1 && Huff(lens, t) == 0;
    var table' := table[1 := Entry(INVALID_OP, 1, 0)];
    forall s: nat | Done(lens, s, 1, Count(lens, 1))
      ensures Placed(kind, table', 1, lens, s)
    {
      assert Placed(kind, table, 1, lens, s);
      assert s == t by { OneSymbol(lens, s, t); }
      KeepZero(kind, table, table', lens, t);
    }
    assert AllPlaced(kind, table', 1, lens, 1, Count(lens, 1));
    TablesDecode(kind, lens, 1, table', 1);
    forall hold: nat | forall s: nat | s < |lens| :: !StartsWith(lens, hold, s)
      ensures Lookup(table', 1, hold) == Some(Entry(INVALID_OP, 1, 0))
    {
      assert !StartsWith(lens, hold, t);
      MarkedLookup(table', hold);
    }
  }

  lemma OneSymbol(lens: seq<nat>, s: nat, t: nat)
    requires s < |lens| && t < |lens| && lens[s] == lens[t] == 1 && Count(lens, 1) == 1
    ensures s == t
  {
    hide Count;
    RankBound(lens, s);
    RankBound(lens, t);
    if s < t { RankInjective(lens, s, t); } else if t < s { RankInjective(lens, t, s); }
  }

  lemma LowOne(x: nat)
    ensures Low(x, 1) == x % 2
  {
    assert Low(x / 2, 0) == 0;
  }

  lemma KeepZero(kind: CodeType, table: seq<Entry>, table': seq<Entry>, lens: seq<nat>, t: nat)
    requires t < |lens| <= MaxSymbols(kind) && lens[t] == 1 && Huff(lens, t) == 0 && Placed(kind, table, 1, lens, t)
    requires |table| == 2 && table' == table[1 := Entry(INVALID_OP, 1, 0)]
    ensures Placed(kind, table', 1, lens, t)
  {
    hide SymbolEntry, Low, Huff;
    forall i: nat | i < Pow2(1) && Low(i, 1) == 0
      ensures table'[i] == SymbolEntry(kind, t, 1)
    {
      LowOne(i);
      Pow2One();
      assert table'[i] == table[i];
    }
    Pow2One();
  }

  lemma MarkedLookup(table: seq<Entry>, hold: nat)
    requires |table| == 2 && table[1] == Entry(INVALID_OP, 1, 0) && Low(hold, 1) != 0
    ensures Lookup(table, 1, hold) == Some(Entry(INVALID_OP, 1, 0))
  {
    LowOne(hold);
  }

  /** A complete set leaves no code over; the lone code leaves one. */
  lemma LastCode(lens: seq<nat>, max: nat)
    requires ValidLens(lens) && IsMax(lens, max) && max > 0 && Kraft(lens) <= Pow2(MAXBITS)
    ensures Kraft(lens) == Pow2(MAXBITS) ==> Rev(NextCode(lens, max) + Count(lens, max), max) == 0
    ensures Kraft(lens) < Pow2(MAXBITS) && max == 1 ==> Rev(NextCode(lens, max) + Count(lens, max), max) == 1
  {
    hide Shl, Count, Pow2, Space, NextCode, Rev;
    var c := NextCode(lens, max) + Count(lens, max);
    if Kraft(lens) == Pow2(MAXBITS) {
      CodePosition(lens, max, Count(lens, max));
      FlatSpace(lens, max, MAXBITS + 1);
      ShlPow2(max, MAXBITS - max);
      if c < Pow2(max) {
        ShlMonotone(c, Pow2(max), MAXBITS - max);
      } else if c > Pow2(max) {
        ShlMonotone(Pow2(max), c, MAXBITS - max);
      }
      RevOfPow2(max, max);
    } else if max == 1 {
      LoneCode(lens);
      FirstNext(lens);
      RevOne();
    }
  }

  lemma FirstNext(lens: seq<nat>)
    ensures NextCode(lens, 1) == 0
  {
  }

  lemma RevOne()
    ensures Rev(1, 1) == 1
  {
    assert Rev(0, 0) == 0 && Pow2(0) == 1;
  }

  lemma {:induction false} FlatSpace(lens: seq<nat>, max: nat, m: nat)
    requires 1 <= max < m <= MAXBITS + 1 && forall l | max < l <= MAXBITS :: Count(lens, l) == 0
    ensures Space(lens, m) == Position(lens, max, Count(lens, max))
  {
    hide Count, Shl;
    if m > max + 1 {
      FlatSpace(lens, max, m - 1);
      ShlZero(MAXBITS - (m - 1));
    }
  }

  lemma {:induction false} RevOfPow2(k: nat, n: nat)
    requires n <= k
    ensures Rev(Pow2(k), n) == 0
  {
    if n > 0 { RevOfPow2(k - 1, n - 1); }
  }

  /** The index bits of the root table (lines 99-114). */
  function RootFor(bits: nat, min: nat, max: nat): (root: nat)
    requires min <= max
    ensures min <= root <= max
  {
    var r := if bits > max then max else bits;
    if r < min then min else r
  }

  /** The size of all the tables, given the bits that were asked for. */
  ghost predicate HasSize(lens: seq<nat>, bits: nat, size: nat)
  {
    exists min: nat, max: nat :: SizeIs(lens, bits, min, max, size)
  }

  ghost predicate SizeIs(lens: seq<nat>, bits: nat, min: nat, max: nat, size: nat)
  {
    IsMin(lens, min) && IsMax(lens, max) && min <= max && size == TableSize(lens, RootFor(bits, min, max), max)
  }

  lemma OnlySize(lens: seq<nat>, bits: nat, min: nat, max: nat, size: nat)
    requires SizeIs(lens, bits, min, max, size)
    ensures forall n: nat | HasSize(lens, bits, n) :: n == size
  {
    hide TableSize, Count;
    forall n: nat | HasSize(lens, bits, n)
      ensures n == size
    {
      var a: nat, b: nat :| SizeIs(lens, bits, a, b, n);
      assert a == min && b == max;
    }
  }

  /** Tables for up to 286 symbols with a root of nine bits, which is what inflate()
      asks for, never come near the space that it has for them. */
  lemma AlwaysEnough(lens: seq<nat>, min: nat, max: nat)
    requires ValidLens(lens) && |lens| <= 286 && IsMin(lens, min) && IsMax(lens, max) && min <= max
    requires Kraft(lens) == Pow2(MAXBITS) || (max == 1 && Kraft(lens) < Pow2(MAXBITS))
    ensures TableSize(lens, RootFor(9, min, max), max) <= 926 < ENOUGH - MAXD
  {
    hide Count, Kraft, Space, SizeTo, Pow2;
    var root := RootFor(9, min, max);
    PowersTo9();
    if max == 1 || max <= 9 {
      assert root == max;
      Pow2Monotone(max, 9);
      NoSubTables(lens, max);
    } else {
      ManySymbols(lens, min);
      if min > 9 {
        Pow2Monotone(9, min);
      }
      FlatSpace(lens, max, MAXBITS + 1);
      WholeSpace(lens, max);
      TableBound(lens, 9, max);
      Pow2Monotone(max - 9, 6);
    }
  }

  lemma PowersTo9()
    ensures Pow2(6) == 64 && Pow2(9) == 512
  {
    assert Pow2(3) == 8;
  }

  lemma NoSubTables(lens: seq<nat>, max: nat)
    requires max <= MAXBITS
    ensures TableSize(lens, max, max) == Pow2(max)
  {
    hide SubBits, Pow2;
    forall h: nat | h < Pow2(max)
      ensures SubBits(lens, max, max, h, 0) == 0
    {
      SubBitsIs(lens, max, max, h, 0, 0);
    }
    SizeRange(lens, max, max, 0, Pow2(max), 0);
    NoSize(lens, max, max);
  }

  lemma WholeSpace(lens: seq<nat>, max: nat)
    requires 1 <= max <= MAXBITS && IsMax(lens, max)
    ensures Space(lens, max + 1) == Kraft(lens)
  {
    SpaceFlat(lens, max + 1, MAXBITS + 1);
  }

  /** The table builder: exactly the bad sets are rejected; only tables for literals
      can run out of room, and do so exactly when they have 1456 entries or more,
      which 286 symbols never do; and otherwise every bit string that starts with
      a code finds the entry of its symbol and uses up the bits of the code. */
  method InflateTable(kind: CodeType, lens: seq<nat>, bits: nat, garbage: Entry) returns (r: Outcome)
    requires ValidLens(lens) && |lens| <= MaxSymbols(kind)
    ensures r.Invalid? <==> exists max | max > 0 :: IsMax(lens, max) && BadSet(kind, lens, max)
    ensures r.NotEnough? <==> kind.LENS? && !r.Invalid? && exists size: nat :: HasSize(lens, bits, size) && size >= ENOUGH - MAXD
    ensures r.NotEnough? ==> !(bits == 9 && |lens| <= 286)
    ensures r.Built? ==> Decodes(kind, lens, r.table, r.root)
    ensures r.Built? ==> forall size: nat | HasSize(lens, bits, size) :: |r.table| == size
  {
    hide Count, Kraft, Pow2, Decodes, SymbolEntry, AllPlaced, TableSize, HasSize;
    var count := CountLengths(lens);
    var max, min := BoundLengths(lens, count);
    OnlyMax(lens, max);
    var root := if bits > max then max else bits;
    if max == 0 {
      NoSizeAtAll(lens, bits);
      EmptyDecodes(kind, lens);
      return Built(EMPTY_TABLE, 1);
    }
    if root < min {
      root := min;
    }
    var left := CheckKraft(lens, count);
    if left < 0 {
      return Invalid;
    }
    if left > 0 && (kind.CODES? || max != 1) {
      return Invalid;
    }
    var work := SortSymbols(lens, count);
    ghost var size := TableSize(lens, root, max);
    assert SizeIs(lens, bits, min, max, size);
    OnlySize(lens, bits, min, max, size);
    assert HasSize(lens, bits, size) by { HasOne(lens, bits, min, max, size); }
    if bits == 9 && |lens| <= 286 {
      AlwaysEnough(lens, min, max);
    }
    var ok, table, huff := FillTables(kind, lens, work, count, min, max, root, garbage);
    if !ok {
      return NotEnough;
    }
    LastCode(lens, max);
    Pow2One();
    ghost var filled := table;
    if left > 0 {
      LoneDecodes(kind, lens, table);
    } else {
      CompleteDecodes(kind, lens, max, table, root);
    }
    // Codes are left over only for the lone one-bit code, in the root table, so
    // there is never a sub-table to drop back from.
    while huff != 0
      invariant left == 0 ==> huff == 0 && table == filled
      invariant left > 0 ==> max == root == 1 && |table| == 2
      invariant left > 0 ==> (huff == 1 && table == filled) || (huff == 0 && table == filled[1 := Entry(INVALID_OP, 1, 0)])
      decreases huff
    {
      LastIncrement();
      table := table[huff := Entry(INVALID_OP, root, 0)];
      huff := BackwardsIncrement(huff, root);
    }
    r := Built(table, root);
  }

  lemma HasOne(lens: seq<nat>, bits: nat, min: nat, max: nat, size: nat)
    requires SizeIs(lens, bits, min, max, size)
    ensures HasSize(lens, bits, size)
  {
  }

  lemma NoSizeAtAll(lens: seq<nat>, bits: nat)
    requires IsMax(lens, 0)
    ensures forall size: nat :: !HasSize(lens, bits, size)
  {
    hide TableSize, Count;
  }

  lemma LastIncrement()
    ensures 1 < Pow2(1) && BackInc(1, 1) == 0
  {
    assert Pow2(0) == 1 && BackInc(0, 0) == 0;
  }

  lemma OnlyMax(lens: seq<nat>, max: nat)
    requires IsMax(lens, max)
    ensures forall m | IsMax(lens, m) :: m == max
  {
    hide Count;
    forall m | IsMax(lens, m) ensures m == max {
    }
  }

  lemma CompleteDecodes(kind: CodeType, lens: seq<nat>, max: nat, table: seq<Entry>, root: nat)
    requires ValidLens(lens) && |lens| <= MaxSymbols(kind) && IsMax(lens, max) && Kraft(lens) == Pow2(MAXBITS)
    requires AllPlaced(kind, table, root, lens, max, Count(lens, max))
    ensures Decodes(kind, lens, table, root)
  {
    hide Kraft, Lookup, SymbolEntry, StartsWith, Count, Pow2;
    TablesDecode(kind, lens, max, table, root);
  }

  lemma EmptyDecodes(kind: CodeType, lens: seq<nat>)
    requires ValidLens(lens) && |lens| <= MaxSymbols(kind) && IsMax(lens, 0)
    ensures Decodes(kind, lens, EMPTY_TABLE, 1)
  {
    hide SymbolEntry, Kraft, Low;
    forall s: nat | s < |lens| && lens[s] > 0 ensures false {
      RankBound(lens, s);
    }
    forall hold: nat ensures Lookup(EMPTY_TABLE, 1, hold) == Some(Entry(INVALID_OP, 1, 0)) {
      LowOne(hold);
    }
  }

  /** What the builder promises for complete sets, in one statement: every bit
      string decodes to the symbol whose code it starts with. */
  lemma EveryStringDecodes(kind: CodeType, lens: seq<nat>, table: seq<Entry>, root: nat, hold: nat) returns (s: nat)
    requires ValidLens(lens) && |lens| <= MaxSymbols(kind) && Kraft(lens) == Pow2(MAXBITS)
    requires Decodes(kind, lens, table, root)
    ensures s < |lens| && StartsWith(lens, hold, s)
    ensures Lookup(table, root, hold) == Some(SymbolEntry(kind, s, lens[s]))
  {
    hide Kraft, Lookup, SymbolEntry, StartsWith, Pow2;
    s := Complete(lens, hold);
  }
}
