/** How many entries the tables of a code take (lib/zlib_inflate/inftrees.c:194-199,
    254-267): one sub-table for each string of `root` bits that starts longer
    codes, as large as the longest of these. */
module InfSize {
  import opened BitStrings
  import opened Canonical

  // ----- One sub-table

  /** Codes of up to root + c bits fill everything up to the end of region h. */
  ghost predicate Covered(lens: seq<nat>, root: nat, c: nat, h: nat)
    requires root + c <= MAXBITS
  {
    Space(lens, root + c + 1) >= Shl(h + 1, MAXBITS - root)
  }

  /** The index bits of the sub-table for region h, zero when it needs none. */
  ghost function SubBits(lens: seq<nat>, root: nat, max: nat, h: nat, c: nat): (b: nat)
    requires root + c <= max <= MAXBITS
    ensures root + b <= max
    decreases max - root - c
  {
    if root + c == max || Covered(lens, root, c, h) then c else SubBits(lens, root, max, h, c + 1)
  }

  ghost function SubSize(lens: seq<nat>, root: nat, max: nat, h: nat): (n: nat)
    requires root <= max <= MAXBITS
  {
    var b := SubBits(lens, root, max, h, 0);
    if b == 0 then 0 else Pow2(b)
  }

  /** The sub-tables of all regions before n. */
  ghost function SizeTo(lens: seq<nat>, root: nat, max: nat, n: nat): (size: nat)
    requires root <= max <= MAXBITS
  {
    if n == 0 then 0 else SizeTo(lens, root, max, n - 1) + SubSize(lens, root, max, n - 1)
  }

  ghost function TableSize(lens: seq<nat>, root: nat, max: nat): (size: nat)
    requires root <= max <= MAXBITS
  {
    Pow2(root) + SizeTo(lens, root, max, Pow2(root))
  }

  lemma {:induction false} SubBitsIs(lens: seq<nat>, root: nat, max: nat, h: nat, c: nat, b: nat)
    requires c <= b && root + b <= max <= MAXBITS
    requires forall x: nat | c <= x < b :: !Covered(lens, root, x, h)
    requires root + b == max || Covered(lens, root, b, h)
    ensures SubBits(lens, root, max, h, c) == b
    decreases b - c
  {
    hide Covered;
    if c < b {
      SubBitsIs(lens, root, max, h, c + 1, b);
    }
  }

  /** Nothing less will do, if the codes before length root + b end too early. */
  lemma NotCovered(lens: seq<nat>, root: nat, h: nat, b: nat)
    requires root + b <= MAXBITS && Space(lens, root + b) < Shl(h + 1, MAXBITS - root)
    ensures forall x: nat | x < b :: !Covered(lens, root, x, h)
  {
    hide Space, Shl;
    forall x: nat | x < b
      ensures !Covered(lens, root, x, h)
    {
      SpaceMonotone(lens, root + x + 1, root + b);
    }
  }

  lemma {:induction false} SizeMonotone(lens: seq<nat>, root: nat, max: nat, a: nat, b: nat)
    requires root <= max <= MAXBITS && a <= b
    ensures SizeTo(lens, root, max, a) <= SizeTo(lens, root, max, b)
    decreases b
  {
    hide SubSize;
    if a < b {
      SizeMonotone(lens, root, max, a, b - 1);
    }
  }

  /** Equal sub-tables one after the other. */
  lemma {:induction false} SizeRange(lens: seq<nat>, root: nat, max: nat, a: nat, b: nat, c: nat)
    requires root <= max <= MAXBITS && a <= b
    requires forall h: nat | a <= h < b :: SubBits(lens, root, max, h, 0) == c
    ensures SizeTo(lens, root, max, b) == SizeTo(lens, root, max, a) + if c == 0 then 0 else Shl(b - a, c)
    decreases b
  {
    hide SubBits, Shl, Pow2;
    if a < b {
      SizeRange(lens, root, max, a, b - 1, c);
      ShlNext(b - 1 - a, c);
    } else {
      ShlZero(c);
    }
  }

  // ----- All of them, by the length of their longest code

  /** The regions that end before the codes of length l start. */
  ghost function Ended(lens: seq<nat>, root: nat, l: nat): nat
    requires root <= MAXBITS && l <= MAXBITS + 1
  {
    Drop(Space(lens, l), MAXBITS - root)
  }

  lemma EndedIs(lens: seq<nat>, root: nat, l: nat, h: nat)
    requires root <= MAXBITS && l <= MAXBITS + 1
    ensures h < Ended(lens, root, l) <==> Space(lens, l) >= Shl(h + 1, MAXBITS - root)
  {
    hide Space, Shl, Drop, Pow2, Low;
    var x, n := Space(lens, l), MAXBITS - root;
    var d := Drop(x, n);
    Split(x, n);
    ShlNext(d, n);
    if h < d {
      ShlMonotone(h + 1, d, n);
    } else {
      ShlMonotone(d + 1, h + 1, n);
    }
  }

  lemma EndedGrows(lens: seq<nat>, root: nat, l: nat)
    requires root <= MAXBITS && l <= MAXBITS
    ensures Ended(lens, root, l) <= Ended(lens, root, l + 1)
  {
    hide Space, Drop;
    SpaceMonotone(lens, l, l + 1);
    DropMonotone(Space(lens, l), Space(lens, l + 1), MAXBITS - root);
  }

  /** A region that ends in the share of length l has a sub-table of l - root bits. */
  lemma EndsInLength(lens: seq<nat>, root: nat, max: nat, l: nat, h: nat)
    requires root <= l <= max <= MAXBITS && h < Ended(lens, root, l + 1)
    requires l == root || Ended(lens, root, l) <= h
    ensures SubBits(lens, root, max, h, 0) == l - root
  {
    hide Ended, SubBits, Space, Shl;
    EndedIs(lens, root, l + 1, h);
    if l > root {
      EndedIs(lens, root, l, h);
      NotCovered(lens, root, h, l - root);
    }
    SubBitsIs(lens, root, max, h, 0, l - root);
  }

  /** The sub-tables of the regions that end before length l. */
  ghost function SizeBefore(lens: seq<nat>, root: nat, l: nat): (size: nat)
    requires root <= MAXBITS && l <= MAXBITS + 1
  {
    if l <= root + 1 then 0
    else
      EndedGrows(lens, root, l - 1);
      SizeBefore(lens, root, l - 1) + Shl(Ended(lens, root, l) - Ended(lens, root, l - 1), l - 1 - root)
  }

  lemma {:induction false} SizeByLength(lens: seq<nat>, root: nat, max: nat, l: nat)
    requires root < l <= max + 1 && max <= MAXBITS
    ensures SizeTo(lens, root, max, Ended(lens, root, l)) == SizeBefore(lens, root, l)
  {
    hide Ended, SubBits, SizeTo, Shl;
    var a := if l == root + 1 then 0 else Ended(lens, root, l - 1);
    var b := Ended(lens, root, l);
    EndedGrows(lens, root, l - 1);
    forall h: nat | a <= h < b
      ensures SubBits(lens, root, max, h, 0) == l - 1 - root
    {
      EndsInLength(lens, root, max, l - 1, h);
    }
    SizeRange(lens, root, max, a, b, l - 1 - root);
    if l == root + 1 {
      NoSize(lens, root, max);
    } else {
      SizeByLength(lens, root, max, l - 1);
    }
  }

  lemma NoSize(lens: seq<nat>, root: nat, max: nat)
    requires root <= max <= MAXBITS
    ensures SizeTo(lens, root, max, 0) == 0
  {
  }

  // ----- The bound

  /** Sub-tables of l - root bits take no more entries than there are codes of
      length l, but for one of them, which may start with shorter codes. */
  lemma LengthBound(lens: seq<nat>, root: nat, l: nat)
    requires root < l <= MAXBITS
    ensures Ended(lens, root, l) <= Ended(lens, root, l + 1)
    ensures Shl(Ended(lens, root, l + 1) - Ended(lens, root, l), l - root) <= Count(lens, l) + Pow2(l - root)
  {
    hide Drop, Shl, Pow2, Count;
    EndedGrows(lens, root, l);
    var a, b := Ended(lens, root, l), Ended(lens, root, l + 1);
    if a == b {
      ShlZero(l - root);
    } else {
      var k := b - a - 1;
      EndedIs(lens, root, l + 1, b - 1);
      EndedIs(lens, root, l, a);
      ShlAdd(k, a + 1, MAXBITS - root);
      assert Space(lens, l + 1) == Space(lens, l) + Shl(Count(lens, l), MAXBITS - l);
      assert Shl(k, MAXBITS - root) <= Shl(Count(lens, l), MAXBITS - l);
      ShlShl(k, l - root, MAXBITS - l);
      if Shl(k, l - root) > Count(lens, l) {
        ShlMonotone(Count(lens, l), Shl(k, l - root), MAXBITS - l);
      }
      ShlNext(k, l - root);
    }
  }

  lemma {:induction false} SizeBound(lens: seq<nat>, root: nat, l: nat)
    requires root < l <= MAXBITS + 1
    ensures SizeBefore(lens, root, l) + Offs(lens, root + 1) + 2 <= Offs(lens, l) + Pow2(l - root)
  {
    hide Ended, Shl, Count;
    if l == root + 1 {
      assert Pow2(1) == 2 * Pow2(0);
    } else {
      SizeBound(lens, root, l - 1);
      LengthBound(lens, root, l - 1);
      assert Pow2(l - root) == 2 * Pow2(l - 1 - root);
      assert Offs(lens, l) == Offs(lens, l - 1) + Count(lens, l - 1);
    }
  }

  /** Symbols with a length below l, among the first n. */
  ghost function Shorter(lens: seq<nat>, l: nat, n: nat): (c: nat)
    requires n <= |lens|
    ensures c <= n
  {
    if n == 0 then 0 else Shorter(lens, l, n - 1) + if 1 <= lens[n - 1] < l then 1 else 0
  }

  lemma {:induction false} ShorterNext(lens: seq<nat>, l: nat, n: nat)
    requires n <= |lens| && l >= 1
    ensures Shorter(lens, l + 1, n) == Shorter(lens, l, n) + CountUpto(lens, l, n)
  {
    if n > 0 {
      ShorterNext(lens, l, n - 1);
    }
  }

  lemma {:induction false} ShorterNone(lens: seq<nat>, n: nat)
    requires n <= |lens|
    ensures Shorter(lens, 1, n) == 0 == Shorter(lens, 0, n)
  {
    if n > 0 {
      ShorterNone(lens, n - 1);
    }
  }

  lemma {:induction false} OffsIs(lens: seq<nat>, l: nat)
    ensures Offs(lens, l) == Shorter(lens, l, |lens|)
  {
    if l <= 1 {
      ShorterNone(lens, |lens|);
    } else {
      OffsIs(lens, l - 1);
      ShorterNext(lens, l - 1, |lens|);
    }
  }

  /** The tables of a complete code have at most as many entries as the root table,
      the symbols and two of the largest sub-tables together. */
  lemma TableBound(lens: seq<nat>, root: nat, max: nat)
    requires root <= max <= MAXBITS && Space(lens, max + 1) == Pow2(MAXBITS)
    ensures TableSize(lens, root, max) <= Pow2(root) + |lens| + 2 * Pow2(max - root)
  {
    hide Space, SizeTo, SizeBefore, Offs, Ended;
    AllEnded(lens, root, max);
    SizeByLength(lens, root, max, max + 1);
    SizeBound(lens, root, max + 1);
    OffsIs(lens, max + 1);
    assert Pow2(max + 1 - root) == 2 * Pow2(max - root);
  }

  lemma AllEnded(lens: seq<nat>, root: nat, max: nat)
    requires root <= max <= MAXBITS && Space(lens, max + 1) == Pow2(MAXBITS)
    ensures Ended(lens, root, max + 1) == Pow2(root)
  {
    hide Space, Drop, Pow2;
    ShlPow2(root, MAXBITS - root);
    DropShl(Pow2(root), MAXBITS - root);
  }

  // ----- Short codes

  lemma {:induction false} ShlLonger(x: nat, m: nat, n: nat)
    requires m <= n
    ensures Shl(x, m) <= Shl(x, n)
  {
    if m < n {
      ShlLonger(x, m, n - 1);
    }
  }

  /** Codes of at least m bits take no more than their number times 2^-m. */
  lemma {:induction false} SpaceOfLong(lens: seq<nat>, m: nat, l: nat)
    requires 1 <= m <= l <= MAXBITS + 1 && m <= MAXBITS && forall k: nat | 1 <= k < m :: Count(lens, k) == 0
    ensures Space(lens, l) <= Shl(Offs(lens, l), MAXBITS - m)
  {
    hide Count, Shl;
    if l == m {
      NothingShorter(lens, m);
    } else {
      SpaceOfLong(lens, m, l - 1);
      ShlLonger(Count(lens, l - 1), MAXBITS - (l - 1), MAXBITS - m);
      ShlAdd(Offs(lens, l - 1), Count(lens, l - 1), MAXBITS - m);
    }
  }

  lemma {:induction false} NothingShorter(lens: seq<nat>, m: nat)
    requires m <= MAXBITS + 1 && forall k: nat | 1 <= k < m :: Count(lens, k) == 0
    ensures Space(lens, m) == 0
  {
    if m > 1 {
      NothingShorter(lens, m - 1);
      ShlZero(MAXBITS - (m - 1));
    }
  }

  /** A complete code without codes below m bits has at least 2^m symbols. */
  lemma ManySymbols(lens: seq<nat>, m: nat)
    requires 1 <= m <= MAXBITS && Kraft(lens) == Pow2(MAXBITS) && forall k: nat | 1 <= k < m :: Count(lens, k) == 0
    ensures Pow2(m) <= |lens|
  {
    hide Count, Shl, Space, Offs, Pow2;
    SpaceOfLong(lens, m, MAXBITS + 1);
    OffsIs(lens, MAXBITS + 1);
    ShlPow2(m, MAXBITS - m);
    if |lens| < Pow2(m) {
      ShlMonotone(Offs(lens, MAXBITS + 1), Pow2(m), MAXBITS - m);
    }
  }

  lemma {:induction false} SpaceFlat(lens: seq<nat>, a: nat, b: nat)
    requires 1 <= a <= b <= MAXBITS + 1 && forall l: nat | a <= l < b :: Count(lens, l) == 0
    ensures Space(lens, a) == Space(lens, b)
  {
    hide Count, Shl;
    if a < b {
      SpaceFlat(lens, a, b - 1);
      ShlZero(MAXBITS - (b - 1));
    }
  }

  /** Codes follow each other without gaps. */
  lemma NextPosition(lens: seq<nat>, len: nat, r: nat)
    requires 1 <= len <= MAXBITS
    ensures Position(lens, len, r + 1) == Position(lens, len, r) + Pow2(MAXBITS - len)
  {
    hide Space, Shl, Pow2;
    ShlNext(r, MAXBITS - len);
  }

  lemma NextPositionLonger(lens: seq<nat>, len: nat, m: nat)
    requires 1 <= len < m <= MAXBITS && Count(lens, len) > 0 && forall l: nat | len < l < m :: Count(lens, l) == 0
    ensures Position(lens, m, 0) == Position(lens, len, Count(lens, len) - 1) + Pow2(MAXBITS - len)
  {
    hide Shl, Pow2, Count;
    NextPosition(lens, len, Count(lens, len) - 1);
    SpaceFlat(lens, len + 1, m);
    ShlZero(MAXBITS - m);
  }

  /** All codes of up to root bits end at the start of a region. */
  lemma ShortEnd(lens: seq<nat>, root: nat)
    requires 1 <= root <= MAXBITS
    ensures Space(lens, root + 1) == Shl(NextCode(lens, root) + Count(lens, root), MAXBITS - root)
  {
    hide Shl, Count, NextCode;
    NextCodeSpace(lens, root);
    ShlAdd(NextCode(lens, root), Count(lens, root), MAXBITS - root);
  }
}
