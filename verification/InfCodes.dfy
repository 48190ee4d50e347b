/** What the entries of decoding tables mean to inflate(), and that for the symbols of
    the format this is section 3.2.5 of RFC 1951 (lib/zlib_inflate/inflate.c:572-630,
    lib/zlib_inflate/inftrees.c:45-59). */
module InfCodes {
  import opened Prelude
  import opened BitStrings
  import opened Canonical
  import opened InfTables
  import opened InfTrees

  /** A literal byte; the end of the block; a length or distance, which is a base and
      the number in so many more bits; or an error. */
  datatype Meaning = Literal(value: nat) | EndOfBlock | Range(base: nat, extra: nat) | Bad

  /** The tests of the LEN state, and those of the DIST state. */
  function LengthMeaning(e: Entry): (m: Meaning)
  {
    if e.op == 0 then Literal(e.val)
    else if e.op / 32 % 2 == 1 then EndOfBlock
    else if e.op / 64 % 2 == 1 then Bad
    else Range(e.val, e.op % 16)
  }

  function DistanceMeaning(e: Entry): (m: Meaning)
  {
    if e.op / 64 % 2 == 1 then Bad else Range(e.val, e.op % 16)
  }

  /** The values that a range can stand for. */
  predicate Covers(m: Meaning, n: nat)
  {
    m.Range? && m.base <= n < m.base + Pow2(m.extra)
  }

  function First(m: Meaning): nat
  {
    if m.Range? then m.base else 0
  }

  /** The value after the last one. */
  function Beyond(m: Meaning): nat
  {
    if m.Range? then m.base + Pow2(m.extra) else 0
  }

  function LengthOf(sym: nat): (m: Meaning)
    requires sym < 288
  {
    LengthMeaning(SymbolEntry(LENS, sym, 0))
  }

  function DistanceOf(sym: nat): (m: Meaning)
    requires sym < 32
  {
    DistanceMeaning(SymbolEntry(DISTS, sym, 0))
  }

  /** Symbols by kind; lengths from 265 on have one extra bit more for every four
      symbols. */
  lemma LengthKinds(sym: nat)
    requires sym < 288
    ensures sym < 256 ==> LengthOf(sym) == Literal(sym)
    ensures sym == 256 ==> LengthOf(sym) == EndOfBlock
    ensures 257 <= sym <= 284 ==> LengthOf(sym).Range? && LengthOf(sym).extra == if sym < 265 then 0 else (sym - 261) / 4
    ensures sym == 285 ==> LengthOf(sym) == Range(258, 0)
    ensures sym >= 286 ==> LengthOf(sym) == Bad
  {
    hide SymbolEntry, Pow2, LengthBase, LengthOp;
    if sym > 256 {
      LengthEntry(sym - 257);
      LengthTable(sym - 257);
    } else {
      ShortEntry(sym);
    }
  }

  lemma ShortEntry(sym: nat)
    requires sym <= 256
    ensures SymbolEntry(LENS, sym, 0) == if sym < 256 then Entry(0, 0, sym) else Entry(96, 0, 0)
  {
  }

  /** Distances from 4 on have one more for every two. */
  lemma DistanceKinds(sym: nat)
    requires sym < 32
    ensures sym < 30 ==> DistanceOf(sym).Range? && DistanceOf(sym).extra == if sym < 2 then 0 else sym / 2 - 1
    ensures sym >= 30 ==> DistanceOf(sym) == Bad
  {
    DistanceEntry(sym);
    DistanceTable(sym);
    hide SymbolEntry, Pow2, DistanceBase, DistanceOp;
  }

  function LengthBase(i: nat): nat requires i < 31 { LBASE[i] }
  function LengthOp(i: nat): nat requires i < 31 { LEXT[i] }
  function DistanceBase(i: nat): nat requires i < 32 { DBASE[i] }
  function DistanceOp(i: nat): nat requires i < 32 { DEXT[i] }

  lemma LengthEntry(i: nat)
    requires i < 31
    ensures LengthOp(i) > 0 && SymbolEntry(LENS, 257 + i, 0) == Entry(LengthOp(i), 0, LengthBase(i))
  {
  }

  lemma DistanceEntry(i: nat)
    requires i < 32
    ensures SymbolEntry(DISTS, i, 0) == Entry(DistanceOp(i), 0, DistanceBase(i))
  {
  }

  lemma LengthTable(i: nat)
    requires i < 31
    ensures LengthBase(0) == 3
    ensures i < 28 ==> LengthOp(i) == 16 + (if i < 8 then 0 else (i - 4) / 4)
    ensures i < 28 ==> LengthBase(i) + Pow2(LengthOp(i) - 16) == if i == 27 then 259 else LengthBase(i + 1)
    ensures i == 28 ==> LengthOp(i) == 16 && LengthBase(i) == 258
    ensures i > 28 ==> LengthOp(i) / 32 % 2 == 0 && LengthOp(i) / 64 % 2 == 1
  {
    SmallPowers();
    hide Pow2;
    if i < 8 {
    } else if i < 12 {
    } else if i < 16 {
    } else if i < 20 {
    } else if i < 24 {
    } else {
    }
  }

  lemma DistanceTable(i: nat)
    requires i < 32
    ensures DistanceBase(0) == 1
    ensures i < 30 ==> DistanceOp(i) == 16 + (if i < 2 then 0 else i / 2 - 1)
    ensures i < 30 ==> DistanceBase(i) + Pow2(DistanceOp(i) - 16) == if i == 29 then 32769 else DistanceBase(i + 1)
    ensures i >= 30 ==> DistanceOp(i) == 64
  {
    DistanceOps(i);
    hide Pow2, DistanceOp;
    SmallPowers();
    if i < 15 {
      NearDistances(i);
    } else if i < 30 {
      FarDistances(i);
    }
  }

  lemma DistanceOps(i: nat)
    requires i < 32
    ensures i < 30 ==> DistanceOp(i) == 16 + (if i < 2 then 0 else i / 2 - 1)
    ensures i >= 30 ==> DistanceOp(i) == 64
  {
  }

  lemma NearDistances(i: nat)
    requires i < 15
    ensures DistanceBase(i) + Pow2(if i < 2 then 0 else i / 2 - 1) == DistanceBase(i + 1)
  {
    SmallPowers();
    hide Pow2;
  }

  lemma FarDistances(i: nat)
    requires 15 <= i < 30
    ensures DistanceBase(i) + Pow2(i / 2 - 1) == if i == 29 then 32769 else DistanceBase(i + 1)
  {
    SmallPowers();
    hide Pow2;
  }

  lemma SmallPowers()
    ensures Pow2(0) == 1 && Pow2(1) == 2 && Pow2(2) == 4 && Pow2(3) == 8 && Pow2(4) == 16 && Pow2(5) == 32 && Pow2(6) == 64
    ensures Pow2(7) == 128 && Pow2(8) == 256 && Pow2(9) == 512 && Pow2(10) == 1024 && Pow2(11) == 2048 && Pow2(12) == 4096 && Pow2(13) == 8192
  {
  }

  /** Each range starts where the one before it ends, from 3 to 258. */
  lemma LengthsFollow(sym: nat)
    requires 257 <= sym <= 284
    ensures First(LengthOf(257)) == 3
    ensures Beyond(LengthOf(sym)) == if sym == 284 then 259 else First(LengthOf(sym + 1))
  {
    hide SymbolEntry, Pow2, LengthBase, LengthOp;
    LengthEntry(0);
    LengthEntry(sym - 257);
    LengthEntry(sym - 256);
    LengthTable(0);
    LengthTable(sym - 257);
    LengthTable(sym - 256);
  }

  /** And from 1 to 32768. */
  lemma DistancesFollow(sym: nat)
    requires sym < 30
    ensures First(DistanceOf(0)) == 1
    ensures Beyond(DistanceOf(sym)) == if sym == 29 then 32769 else First(DistanceOf(sym + 1))
  {
    hide SymbolEntry, Pow2, DistanceBase, DistanceOp;
    DistanceEntry(0);
    DistanceEntry(sym);
    DistanceEntry(sym + 1);
    DistanceTable(0);
    DistanceTable(sym);
    DistanceTable(sym + 1);
  }

  /** Ranges in a row: a value is in exactly one of them. */
  lemma {:induction false} FindRange(ranges: seq<Meaning>, first: nat, n: nat) returns (k: nat)
    requires ranges != [] && ranges[0].Range? && ranges[0].base == first
    requires forall j: nat | j < |ranges| :: ranges[j].Range?
    requires forall j: nat | j + 1 < |ranges| :: Adjacent(ranges, j)
    requires var l := ranges[|ranges| - 1]; first <= n < l.base + Pow2(l.extra)
    ensures k < |ranges| && forall j: nat | j < |ranges| :: Covers(ranges[j], n) <==> j == k
    decreases |ranges|
  {
    hide Pow2;
    var m := |ranges| - 1;
    if n >= ranges[m].base {
      k := m;
      forall j: nat | j < m
        ensures !Covers(ranges[j], n)
      {
        Rising(ranges, j, m);
      }
    } else {
      assert m > 0 && Adjacent(ranges, m - 1);
      forall j: nat | j + 1 < m
        ensures Adjacent(ranges[..m], j)
      {
        assert Adjacent(ranges, j);
      }
      k := FindRange(ranges[..m], first, n);
      forall j: nat | j < |ranges|
        ensures Covers(ranges[j], n) <==> j == k
      {
        assert j < m ==> ranges[..m][j] == ranges[j];
      }
    }
  }

  ghost predicate Adjacent(ranges: seq<Meaning>, j: nat)
    requires j + 1 < |ranges|
  {
    ranges[j].Range? && ranges[j + 1].Range? && ranges[j].base + Pow2(ranges[j].extra) == ranges[j + 1].base
  }

  lemma {:induction false} Rising(ranges: seq<Meaning>, i: nat, j: nat)
    requires i < j < |ranges| && forall k: nat | k + 1 < |ranges| :: Adjacent(ranges, k)
    ensures ranges[i].Range? && ranges[j].Range? && ranges[i].base + Pow2(ranges[i].extra) <= ranges[j].base
    decreases j
  {
    hide Pow2;
    assert Adjacent(ranges, j - 1);
    if i < j - 1 {
      Rising(ranges, i, j - 1);
    }
  }

  ghost predicate OnlyLength(sym: nat, n: nat)
    requires 257 <= sym <= 284
  {
    forall s: nat | 257 <= s <= 284 :: Covers(LengthOf(s), n) <==> s == sym
  }

  ghost predicate OnlyDistance(sym: nat, n: nat)
    requires sym < 30
  {
    forall s: nat | s < 30 :: Covers(DistanceOf(s), n) <==> s == sym
  }

  /** Every length from 3 to 258 belongs to exactly one of the symbols 257 to 284. */
  lemma EachLengthOnce(n: nat)
    requires 3 <= n <= 258
    ensures exists sym: nat :: 257 <= sym <= 284 && OnlyLength(sym, n)
  {
    hide LengthOf, Pow2, Covers;
    var ranges := seq(28, k requires 0 <= k < 28 => LengthOf(257 + k));
    forall k: nat | k < 28
      ensures ranges[k].Range?
    {
      LengthKinds(257 + k);
    }
    forall j: nat | j + 1 < 28
      ensures Adjacent(ranges, j)
    {
      LengthsFollow(257 + j);
    }
    LengthsFollow(284);
    var k := FindRange(ranges, 3, n);
    forall s: nat | 257 <= s <= 284
      ensures Covers(LengthOf(s), n) <==> s == 257 + k
    {
      assert ranges[s - 257] == LengthOf(s);
    }
    assert OnlyLength(257 + k, n);
  }

  /** Every distance from 1 to 32768 belongs to exactly one of the symbols 0 to 29. */
  lemma EachDistanceOnce(n: nat)
    requires 1 <= n <= 32768
    ensures exists sym: nat :: sym < 30 && OnlyDistance(sym, n)
  {
    hide DistanceOf, Pow2, Covers;
    var ranges := seq(30, k requires 0 <= k < 30 => DistanceOf(k));
    forall k: nat | k < 30
      ensures ranges[k].Range?
    {
      DistanceKinds(k);
    }
    forall j: nat | j + 1 < 30
      ensures Adjacent(ranges, j)
    {
      DistancesFollow(j);
    }
    DistancesFollow(29);
    var k := FindRange(ranges, 1, n);
    forall s: nat | s < 30
      ensures Covers(DistanceOf(s), n) <==> s == k
    {
      assert ranges[s] == DistanceOf(s);
    }
    assert OnlyDistance(k, n);
  }

  /** So tables that were built give every string that starts with a code what its
      symbol means, and the others an error, after the bits of the code alone. */
  lemma TablesMean(kind: CodeType, lens: seq<nat>, table: seq<Entry>, root: nat, hold: nat)
    requires |lens| <= MaxSymbols(kind) && Decodes(kind, lens, table, root)
    ensures forall s: nat | s < |lens| && StartsWith(lens, hold, s) ::
              && Lookup(table, root, hold).Some?
              && var e := Lookup(table, root, hold).value;
                 && e.bits == lens[s]
                 && match kind
                    case CODES => e.op == 0 && e.val == s
                    case LENS => LengthMeaning(e) == LengthOf(s)
                    case DISTS => DistanceMeaning(e) == DistanceOf(s)
    ensures Kraft(lens) < Pow2(MAXBITS) && (forall s: nat | s < |lens| :: !StartsWith(lens, hold, s)) ==>
              && Lookup(table, root, hold).Some?
              && LengthMeaning(Lookup(table, root, hold).value) == Bad == DistanceMeaning(Lookup(table, root, hold).value)
  {
    hide Lookup, StartsWith, Kraft, Pow2;
  }
}
