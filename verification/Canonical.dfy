/** Canonical Huffman codes, assigned from code lengths as section 3.2.2 of
    RFC 1951 does, and the order in which the table builder goes through them. */
module Canonical {
  import opened BitStrings

  const MAXBITS := 15

  ghost predicate ValidLens(lens: seq<nat>)
  {
    forall i | 0 <= i < |lens| :: lens[i] <= MAXBITS
  }

  /** How many of the first n symbols have length l. */
  ghost function CountUpto(lens: seq<nat>, l: nat, n: nat): (c: nat)
    requires n <= |lens|
    ensures c <= n
  {
    if n == 0 then 0 else CountUpto(lens, l, n - 1) + (if lens[n - 1] == l then 1 else 0)
  }

  /** bl_count[l] of the RFC; length zero means that a symbol is not used. */
  ghost function Count(lens: seq<nat>, l: nat): (c: nat)
  {
    if l == 0 then 0 else CountUpto(lens, l, |lens|)
  }

  ghost function Rank(lens: seq<nat>, s: nat): nat
    requires s < |lens|
  {
    CountUpto(lens, lens[s], s)
  }

  /** next_code[l] of the RFC, before any code of that length is given out. */
  ghost function NextCode(lens: seq<nat>, l: nat): nat
  {
    if l <= 1 then 0 else 2 * (NextCode(lens, l - 1) + Count(lens, l - 1))
  }

  /** The code of a symbol: codes of one length follow the order of symbols. */
  ghost function Code(lens: seq<nat>, s: nat): nat
    requires s < |lens|
  {
    NextCode(lens, lens[s]) + Rank(lens, s)
  }

  /** The code of s, as it is read from the stream: its first bit is the lowest. */
  ghost function Huff(lens: seq<nat>, s: nat): nat
    requires s < |lens|
  {
    Rev(Code(lens, s), lens[s])
  }

  /** The bits of hold start with the code of s. */
  ghost predicate StartsWith(lens: seq<nat>, hold: nat, s: nat)
    requires s < |lens|
  {
    lens[s] > 0 && Low(hold, lens[s]) == Huff(lens, s)
  }

  /** Number of symbols shorter than l. */
  ghost function Offs(lens: seq<nat>, l: nat): nat
  {
    if l <= 1 then 0 else Offs(lens, l - 1) + Count(lens, l - 1)
  }

  /** The share of all 15-bit strings that codes shorter than l take. */
  ghost function Space(lens: seq<nat>, l: nat): nat
    requires l <= MAXBITS + 1
  {
    if l <= 1 then 0 else Space(lens, l - 1) + Shl(Count(lens, l - 1), MAXBITS - (l - 1))
  }

  /** All the codes together: the Kraft sum in units of 2^-15. */
  ghost function Kraft(lens: seq<nat>): nat
  {
    Space(lens, MAXBITS + 1)
  }

  lemma {:induction false} CountUptoMonotone(lens: seq<nat>, l: nat, m: nat, n: nat)
    requires m <= n <= |lens|
    ensures CountUpto(lens, l, m) <= CountUpto(lens, l, n)
  {
    if m < n { CountUptoMonotone(lens, l, m, n - 1); }
  }

  lemma RankBound(lens: seq<nat>, s: nat)
    requires s < |lens| && lens[s] > 0
    ensures Rank(lens, s) < Count(lens, lens[s])
  {
    CountUptoMonotone(lens, lens[s], s + 1, |lens|);
  }

  lemma {:induction false} RankInjective(lens: seq<nat>, s: nat, t: nat)
    requires s < t < |lens| && lens[s] == lens[t]
    ensures Rank(lens, s) < Rank(lens, t)
  {
    CountUptoMonotone(lens, lens[s], s + 1, t);
  }

  /** Every rank below the count belongs to a symbol. */
  lemma {:induction false} Nth(lens: seq<nat>, l: nat, r: nat, n: nat) returns (s: nat)
    requires n <= |lens| && r < CountUpto(lens, l, n)
    ensures s < n && lens[s] == l && Rank(lens, s) == r
  {
    if lens[n - 1] == l && CountUpto(lens, l, n - 1) == r {
      s := n - 1;
    } else {
      s := Nth(lens, l, r, n - 1);
    }
  }

  lemma {:induction false} OffsMonotone(lens: seq<nat>, l: nat, m: nat)
    requires l <= m
    ensures Offs(lens, l) <= Offs(lens, m)
  {
    if l < m { OffsMonotone(lens, l, m - 1); }
  }

  lemma {:induction false} SpaceMonotone(lens: seq<nat>, l: nat, m: nat)
    requires l <= m <= MAXBITS + 1
    ensures Space(lens, l) <= Space(lens, m)
  {
    if l < m { SpaceMonotone(lens, l, m - 1); }
  }

  /** Codes of the next length start where all shorter ones end. */
  lemma {:induction false} NextCodeSpace(lens: seq<nat>, l: nat)
    requires 1 <= l <= MAXBITS
    ensures Shl(NextCode(lens, l), MAXBITS - l) == Space(lens, l)
  {
    if l == 1 {
      ShlZero(MAXBITS - 1);
    } else {
      NextCodeSpace(lens, l - 1);
      var c := NextCode(lens, l - 1) + Count(lens, l - 1);
      ShlInner(c, MAXBITS - l);
      ShlAdd(NextCode(lens, l - 1), Count(lens, l - 1), MAXBITS - (l - 1));
    }
  }

  /** Where a code of length l and rank r lies among all 15-bit strings. */
  ghost function Position(lens: seq<nat>, l: nat, r: nat): nat
    requires 1 <= l <= MAXBITS
  {
    Space(lens, l) + Shl(r, MAXBITS - l)
  }

  lemma CodePosition(lens: seq<nat>, l: nat, r: nat)
    requires 1 <= l <= MAXBITS
    ensures Shl(NextCode(lens, l) + r, MAXBITS - l) == Position(lens, l, r)
  {
    hide Shl, NextCode, Space;
    NextCodeSpace(lens, l);
    ShlAdd(NextCode(lens, l), r, MAXBITS - l);
  }

  /** A code ends before the codes of the next length begin. */
  lemma PositionEnd(lens: seq<nat>, l: nat, r: nat)
    requires 1 <= l <= MAXBITS && r < Count(lens, l)
    ensures Position(lens, l, r) + Pow2(MAXBITS - l) <= Space(lens, l + 1)
  {
    hide Shl, Count, Pow2;
    ShlNext(r, MAXBITS - l);
    ShlMonotone(r + 1, Count(lens, l), MAXBITS - l);
  }

  /** Without over-subscription every code fits in its length. */
  lemma CodeFits(lens: seq<nat>, l: nat, r: nat)
    requires 1 <= l <= MAXBITS && r < Count(lens, l) && Kraft(lens) <= Pow2(MAXBITS)
    ensures NextCode(lens, l) + r < Pow2(l)
  {
    hide Shl, Count, Space, NextCode, Pow2;
    var c := NextCode(lens, l) + r;
    PositionEnd(lens, l, r);
    SpaceMonotone(lens, l + 1, MAXBITS + 1);
    CodePosition(lens, l, r);
    ShlNext(c, MAXBITS - l);
    ShlPow2(l, MAXBITS - l);
    if c >= Pow2(l) {
      ShlMonotone(Pow2(l), c, MAXBITS - l);
    }
  }

  /** The order of the builder: by length, then by rank. */
  ghost predicate Before(l1: nat, r1: nat, l2: nat, r2: nat)
  {
    l1 < l2 || (l1 == l2 && r1 < r2)
  }

  lemma PositionOrder(lens: seq<nat>, l1: nat, r1: nat, l2: nat, r2: nat)
    requires 1 <= l1 <= l2 <= MAXBITS && r1 < Count(lens, l1) && Before(l1, r1, l2, r2)
    ensures Position(lens, l1, r1) + Pow2(MAXBITS - l1) <= Position(lens, l2, r2)
  {
    hide Shl, Count, Space, Pow2;
    if l1 < l2 {
      PositionEnd(lens, l1, r1);
      SpaceMonotone(lens, l1 + 1, l2);
    } else {
      ShlNext(r1, MAXBITS - l1);
      ShlMonotone(r1 + 1, r2, MAXBITS - l1);
    }
  }

  /** The canonical code is prefix-free: a later code never starts with an
      earlier one. */
  lemma CodesPrefixFree(lens: seq<nat>, l1: nat, r1: nat, l2: nat, r2: nat)
    requires 1 <= l1 <= l2 <= MAXBITS && r1 < Count(lens, l1) && r2 < Count(lens, l2) && Before(l1, r1, l2, r2)
    requires Kraft(lens) <= Pow2(MAXBITS)
    ensures Low(Rev(NextCode(lens, l2) + r2, l2), l1) != Rev(NextCode(lens, l1) + r1, l1)
  {
    hide Shl, Count, Space, Pow2, NextCode, Rev, Low, Kraft;
    var a, b := NextCode(lens, l1) + r1, NextCode(lens, l2) + r2;
    CodeFits(lens, l1, r1);
    CodeFits(lens, l2, r2);
    PositionOrder(lens, l1, r1, l2, r2);
    CodePosition(lens, l1, r1);
    CodePosition(lens, l2, r2);
    ShlNext(a, MAXBITS - l1);
    ShlShl(a + 1, l2 - l1, MAXBITS - l2);
    if b < Shl(a + 1, l2 - l1) {
      ShlMonotone(b, Shl(a + 1, l2 - l1), MAXBITS - l2);
    }
    PrefixFree(a, l1, b, l2);
  }

  /** In a complete set every bit string starts with the code of some symbol. */
  lemma Complete(lens: seq<nat>, hold: nat) returns (s: nat)
    requires ValidLens(lens) && Kraft(lens) == Pow2(MAXBITS)
    ensures s < |lens| && StartsWith(lens, hold, s)
  {
    hide Shl, Count, Space, Pow2, NextCode, Rev, Low;
    var q := RevOnto(Low(hold, MAXBITS), MAXBITS);
    var l := FindLength(lens, q, MAXBITS);
    var r := Drop(q - Space(lens, l), MAXBITS - l);
    InLength(lens, q, l);
    s := Nth(lens, l, r, |lens|) by { CountIs(lens, l); }
    var c := NextCode(lens, l) + r;
    RevLow(q, MAXBITS, l);
    LowLow(hold, l, MAXBITS);
  }

  lemma CountIs(lens: seq<nat>, l: nat)
    requires l > 0
    ensures Count(lens, l) == CountUpto(lens, l, |lens|)
  {
  }

  lemma {:induction false} FindLength(lens: seq<nat>, q: nat, m: nat) returns (l: nat)
    requires m <= MAXBITS && q < Space(lens, m + 1)
    ensures 1 <= l <= m && Space(lens, l) <= q < Space(lens, l + 1)
  {
    if q >= Space(lens, m) {
      l := m;
    } else {
      l := FindLength(lens, q, m - 1);
    }
  }

  /** A string in the share of length l starts with a code of that length. */
  lemma InLength(lens: seq<nat>, q: nat, l: nat)
    requires 1 <= l <= MAXBITS && Space(lens, l) <= q < Space(lens, l + 1)
    ensures var r := Drop(q - Space(lens, l), MAXBITS - l);
            r < Count(lens, l) && Drop(q, MAXBITS - l) == NextCode(lens, l) + r
  {
    hide Shl, Count, Pow2, NextCode, Low, Drop;
    var x, n := q - Space(lens, l), MAXBITS - l;
    var r := Drop(x, n);
    Split(x, n);
    if r >= Count(lens, l) {
      ShlMonotone(Count(lens, l), r, n);
    }
    CodePosition(lens, l, r);
    LowShl(Low(x, n), NextCode(lens, l) + r, n);
  }

  // ----- The rule that makes a code canonical

  /** Symbol s comes before t in the order of lengths, and of symbols with the same
      length. */
  predicate Earlier(lens: seq<nat>, s: nat, t: nat)
    requires s < |lens| && t < |lens|
  {
    0 < lens[s] && 0 < lens[t] && (lens[s] < lens[t] || (lens[s] == lens[t] && s < t))
  }

  /** ... and no other symbol comes between. */
  ghost predicate NextTo(lens: seq<nat>, s: nat, t: nat)
    requires s < |lens| && t < |lens|
  {
    Earlier(lens, s, t) && forall u: nat | u < |lens| :: !(Earlier(lens, s, u) && Earlier(lens, u, t))
  }

  lemma {:induction false} NoneFrom(lens: seq<nat>, l: nat, m: nat, n: nat)
    requires m <= n <= |lens| && forall u: nat | m <= u < n :: lens[u] != l
    ensures CountUpto(lens, l, m) == CountUpto(lens, l, n)
  {
    if m < n {
      NoneFrom(lens, l, m, n - 1);
    }
  }

  lemma {:induction false} EmptyLengths(lens: seq<nat>, l: nat, m: nat)
    requires 1 <= l < m && forall k: nat | l < k < m :: Count(lens, k) == 0
    ensures NextCode(lens, m) == Shl(NextCode(lens, l) + Count(lens, l), m - l)
    decreases m
  {
    hide Count;
    var c := NextCode(lens, l) + Count(lens, l);
    if m == l + 1 {
      assert Shl(c, 1) == 2 * Shl(c, 0);
    } else {
      EmptyLengths(lens, l, m - 1);
      assert Shl(c, m - l) == 2 * Shl(c, m - 1 - l);
    }
  }

  lemma NoSymbols(lens: seq<nat>, l: nat)
    requires forall u: nat | u < |lens| :: lens[u] != l
    ensures Count(lens, l) == 0
  {
    NoneFrom(lens, l, 0, |lens|);
  }

  lemma NothingBetween(lens: seq<nat>, s: nat, t: nat)
    requires s < |lens| && t < |lens| && NextTo(lens, s, t)
    ensures forall u: nat | u < |lens| ::
              lens[u] < lens[s] || lens[u] > lens[t] || (lens[u] == lens[s] && u <= s) || (lens[u] == lens[t] && u >= t)
  {
    forall u: nat | u < |lens|
      ensures lens[u] < lens[s] || lens[u] > lens[t] || (lens[u] == lens[s] && u <= s) || (lens[u] == lens[t] && u >= t)
    {
      assert !(Earlier(lens, s, u) && Earlier(lens, u, t));
    }
  }

  /** Codes are consecutive numbers in that order, with zeroes appended when the
      length grows. */
  lemma CodesInARow(lens: seq<nat>, s: nat, t: nat)
    requires s < |lens| && t < |lens| && NextTo(lens, s, t)
    ensures Code(lens, t) == Shl(Code(lens, s) + 1, lens[t] - lens[s])
  {
    hide Count, NextCode;
    var l, m := lens[s], lens[t];
    NothingBetween(lens, s, t);
    if l == m {
      NoneFrom(lens, l, s + 1, t);
      assert Shl(Code(lens, s) + 1, 0) == Code(lens, s) + 1;
    } else {
      NoneFrom(lens, l, s + 1, |lens|);
      CountIs(lens, l);
      NoneFrom(lens, m, 0, t);
      forall k: nat | l < k < m
        ensures Count(lens, k) == 0
      {
        NoSymbols(lens, k);
      }
      EmptyLengths(lens, l, m);
    }
  }

  lemma {:induction false} ShorterUnused(lens: seq<nat>, l: nat)
    requires forall k: nat | 0 < k < l :: Count(lens, k) == 0
    ensures NextCode(lens, l) == 0
  {
    hide Count;
    if l > 1 {
      ShorterUnused(lens, l - 1);
    }
  }

  /** The first one is zero. */
  lemma FirstCodeIsZero(lens: seq<nat>, s: nat)
    requires s < |lens| && lens[s] > 0 && forall u: nat | u < |lens| :: !Earlier(lens, u, s)
    ensures Code(lens, s) == 0
  {
    forall u: nat | u < |lens|
      ensures lens[u] == 0 || lens[u] > lens[s] || (lens[u] == lens[s] && u >= s)
    {
      assert !Earlier(lens, u, s);
    }
    NoneFrom(lens, lens[s], 0, s);
    forall k: nat | 0 < k < lens[s]
      ensures Count(lens, k) == 0
    {
      NoSymbols(lens, k);
    }
    ShorterUnused(lens, lens[s]);
  }
}
