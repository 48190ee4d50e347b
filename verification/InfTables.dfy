/** Two-level decoding tables (lib/zlib_inflate/inftrees.c): what an entry means,
    how the decoder looks a bit string up, and when a table holds a code. */
module InfTables {
  import opened Prelude
  import opened BitStrings
  import opened Canonical

  datatype CodeType = CODES | LENS | DISTS

  datatype Entry = Entry(op: nat, bits: nat, val: nat)

  const ENOUGH := 2048
  const MAXD := 592
  const INVALID_OP := 64
  const END_OF_BLOCK_OP := 32 + 64

  const LBASE: seq<nat> :=
    [3, 4, 5, 6, 7, 8, 9, 10, 11, 13, 15, 17, 19, 23, 27, 31,
     35, 43, 51, 59, 67, 83, 99, 115, 131, 163, 195, 227, 258, 0, 0]
  const LEXT: seq<nat> :=
    [16, 16, 16, 16, 16, 16, 16, 16, 17, 17, 17, 17, 18, 18, 18, 18,
     19, 19, 19, 19, 20, 20, 20, 20, 21, 21, 21, 21, 16, 201, 196]
  const DBASE: seq<nat> :=
    [1, 2, 3, 4, 5, 7, 9, 13, 17, 25, 33, 49, 65, 97, 129, 193,
     257, 385, 513, 769, 1025, 1537, 2049, 3073, 4097, 6145,
     8193, 12289, 16385, 24577, 0, 0]
  const DEXT: seq<nat> :=
    [16, 16, 16, 16, 17, 17, 18, 18, 19, 19, 20, 20, 21, 21, 22, 22,
     23, 23, 24, 24, 25, 25, 26, 26, 27, 27,
     28, 28, 29, 29, 64, 64]

  /** How many symbols there are tables for. */
  function MaxSymbols(kind: CodeType): nat
  {
    match kind
    case CODES => 19
    case LENS => 257 + 31
    case DISTS => 32
  }

  /** The entry of a symbol that takes the given number of bits. */
  function SymbolEntry(kind: CodeType, sym: nat, bits: nat): (e: Entry)
    requires sym < MaxSymbols(kind)
    ensures e.op == 0 || e.op >= 16
  {
    match kind
    case CODES => Entry(0, bits, sym)
    case LENS =>
      if sym < 256 then Entry(0, bits, sym)
      else if sym == 256 then Entry(END_OF_BLOCK_OP, bits, 0)
      else ExtOps(sym - 257, LEXT); Entry(LEXT[sym - 257], bits, LBASE[sym - 257])
    case DISTS => ExtOps(sym, DEXT); Entry(DEXT[sym], bits, DBASE[sym])
  }

  lemma ExtOps(i: nat, ext: seq<nat>)
    requires i < |ext| && (ext == LEXT || ext == DEXT)
    ensures ext[i] >= 16
  {
    assert forall j | 0 <= j < |LEXT| :: LEXT[j] >= 16;
    assert forall j | 0 <= j < |DEXT| :: DEXT[j] >= 16;
  }

  predicate IsLink(e: Entry)
  {
    0 < e.op < 16
  }

  /** lib/zlib_inflate/inflate.c:573-587: a link in the root table leads to a
      second table; the bits of both entries are dropped. */
  function Lookup(table: seq<Entry>, root: nat, hold: nat): (r: Option<Entry>)
  {
    var i := Low(hold, root);
    if i >= |table| then None
    else if !IsLink(table[i]) then Some(table[i])
    else
      var j := table[i].val + Low(Drop(hold, table[i].bits), table[i].op);
      if j >= |table| then None
      else Some(Entry(table[j].op, table[i].bits + table[j].bits, table[j].val))
  }

  // ----- A code in the tables

  /** Every index of the root table that ends in the code holds its entry. */
  ghost predicate InRoot(table: seq<Entry>, root: nat, huff: nat, l: nat, e: Entry)
  {
    forall i: nat | i < Pow2(root) && Low(i, l) == huff :: i < |table| && table[i] == e
  }

  /** Every index of one sub-table that ends in the rest of the code does. */
  ghost predicate InSub(table: seq<Entry>, base: nat, curr: nat, rest: nat, l: nat, e: Entry)
  {
    forall j: nat | j < Pow2(curr) && Low(j, l) == rest :: base + j < |table| && table[base + j] == e
  }

  ghost predicate LinkAt(table: seq<Entry>, root: nat, low: nat)
  {
    && low < |table| && IsLink(table[low]) && table[low].bits == root
    && Pow2(root) <= table[low].val && table[low].val + Pow2(table[low].op) <= |table|
  }

  ghost predicate Placed(kind: CodeType, table: seq<Entry>, root: nat, lens: seq<nat>, s: nat)
    requires s < |lens| <= MaxSymbols(kind)
  {
    var l, huff := lens[s], Huff(lens, s);
    if l <= root then InRoot(table, root, huff, l, SymbolEntry(kind, s, l))
    else
      var low := Low(huff, root);
      && LinkAt(table, root, low)
      && l - root <= table[low].op
      && InSub(table, table[low].val, table[low].op, Drop(huff, root), l - root, SymbolEntry(kind, s, l - root))
  }

  /** A placed code is found by every bit string that starts with it, and exactly
      its bits are used up. */
  lemma PlacedLookup(kind: CodeType, table: seq<Entry>, root: nat, lens: seq<nat>, s: nat, hold: nat)
    requires s < |lens| <= MaxSymbols(kind) && Placed(kind, table, root, lens, s) && StartsWith(lens, hold, s)
    ensures Lookup(table, root, hold) == Some(SymbolEntry(kind, s, lens[s]))
  {
    hide Low, Drop, Pow2, Huff, SymbolEntry;
    var l, huff := lens[s], Huff(lens, s);
    var i := Low(hold, root);
    if l <= root {
      LowLow(hold, l, root);
    } else {
      LowLow(hold, root, l);
      var link := table[i];
      DropLow(hold, root, l);
      var j := Low(Drop(hold, root), link.op);
      LowLow(Drop(hold, root), l - root, link.op);
      assert table[link.val + j] == SymbolEntry(kind, s, l - root);
      EntryBits(kind, s, l - root, root);
    }
  }

  lemma EntryBits(kind: CodeType, s: nat, a: nat, b: nat)
    requires s < MaxSymbols(kind)
    ensures SymbolEntry(kind, s, a).(bits := a + b) == SymbolEntry(kind, s, a + b)
    ensures SymbolEntry(kind, s, a).bits == a
  {
  }

  // ----- What the builder does to a table

  /** Copies of e at all indices of one table that end in h. */
  ghost predicate Filled(table: seq<Entry>, table': seq<Entry>, base: nat, size: nat, h: nat, l: nat, e: Entry)
  {
    && |table'| == |table|
    && forall j: nat | j < |table| ::
         table'[j] == if base <= j < base + size && Low(j - base, l) == h then e else table[j]
  }

  /** A new sub-table after the end, and a link to it. */
  ghost predicate Linked(table: seq<Entry>, table': seq<Entry>, low: nat, link: Entry, size: nat)
  {
    && |table'| == |table| + size && low < |table|
    && forall j: nat | j < |table| :: table'[j] == if j == low then link else table[j]
  }

  /** Filling in a later code of the root table keeps an earlier one. */
  lemma RootFillKeeps(kind: CodeType, table: seq<Entry>, table': seq<Entry>, root: nat, lens: seq<nat>, s: nat, huff: nat, l: nat, e: Entry)
    requires s < |lens| <= MaxSymbols(kind) && lens[s] <= l <= root && Pow2(root) <= |table|
    requires Placed(kind, table, root, lens, s)
    requires Filled(table, table', 0, Pow2(root), huff, l, e)
    requires Low(huff, lens[s]) != Huff(lens, s)
    ensures Placed(kind, table', root, lens, s)
  {
    hide Low, Pow2, Huff, SymbolEntry;
    forall i: nat | i < Pow2(root) && Low(i, lens[s]) == Huff(lens, s)
      ensures table'[i] == SymbolEntry(kind, s, lens[s])
    {
      if Low(i, l) == huff {
        LowLow(i, lens[s], l);
      }
      assert table'[i] == table[i];
    }
  }

  /** Filling in a later code of the current sub-table keeps an earlier one. */
  lemma SubFillKeeps(kind: CodeType, table: seq<Entry>, table': seq<Entry>, root: nat, lens: seq<nat>, s: nat, base: nat, curr: nat, huff: nat, l: nat, e: Entry)
    requires s < |lens| <= MaxSymbols(kind) && lens[s] <= l && root < l && Pow2(root) <= base && base + Pow2(curr) <= |table|
    requires Placed(kind, table, root, lens, s)
    requires Filled(table, table', base, Pow2(curr), Drop(huff, root), l - root, e)
    requires lens[s] > root ==> Low(huff, lens[s]) != Huff(lens, s)
    requires lens[s] > root ==>
               var link := table[Low(Huff(lens, s), root)];
               link.val + Pow2(link.op) <= base || (link.val == base && link.op == curr && Low(Huff(lens, s), root) == Low(huff, root))
    ensures Placed(kind, table', root, lens, s)
  {
    hide Low, Pow2, Huff, SymbolEntry, Drop;
    var h, k := Huff(lens, s), lens[s];
    if k > root {
      var low := Low(h, root);
      HuffBound(lens, s);
      assert low < Pow2(root);
      var link := table[low];
      var d := k - root;
      forall j: nat | j < Pow2(link.op) && Low(j, d) == Drop(h, root)
        ensures table'[link.val + j] == SymbolEntry(kind, s, k - root)
      {
        if link.val == base && Low(j, l - root) == Drop(huff, root) {
          LowLow(j, k - root, l - root);
          SameBits(huff, h, root, k);
        }
        assert table'[link.val + j] == table[link.val + j];
      }
    } else {
      forall i: nat | i < Pow2(root) && Low(i, k) == h
        ensures table'[i] == SymbolEntry(kind, s, k)
      {
        assert table'[i] == table[i];
      }
    }
  }

  lemma HuffBound(lens: seq<nat>, s: nat)
    requires s < |lens|
    ensures Huff(lens, s) < Pow2(lens[s])
  {
  }

  /** Bit strings with the same lowest bits and the same next bits are the same. */
  lemma SameBits(x: nat, h: nat, root: nat, k: nat)
    requires root <= k && h < Pow2(k)
    requires Low(x, root) == Low(h, root) && Low(Drop(x, root), k - root) == Drop(h, root)
    ensures Low(x, k) == h
  {
    hide Low, Pow2, Drop;
    DropLow(x, root, k);
    LowLow(x, root, k);
    Split(Low(x, k), root);
    Split(h, root);
  }

  /** A new sub-table keeps every code that does not own its link. */
  lemma LinkKeeps(kind: CodeType, table: seq<Entry>, table': seq<Entry>, root: nat, lens: seq<nat>, s: nat, huff: nat, link: Entry, size: nat)
    requires s < |lens| <= MaxSymbols(kind) && Placed(kind, table, root, lens, s) && Pow2(root) <= |table|
    requires Linked(table, table', Low(huff, root), link, size)
    requires lens[s] <= root ==> Low(huff, lens[s]) != Huff(lens, s)
    requires lens[s] > root ==> Low(Huff(lens, s), root) != Low(huff, root)
    ensures Placed(kind, table', root, lens, s)
    ensures lens[s] > root ==> table'[Low(Huff(lens, s), root)] == table[Low(Huff(lens, s), root)]
  {
    hide Low, Pow2, Huff, SymbolEntry, Drop;
    var h, k := Huff(lens, s), lens[s];
    if k <= root {
      forall i: nat | i < Pow2(root) && Low(i, k) == h
        ensures table'[i] == SymbolEntry(kind, s, k)
      {
        if i == Low(huff, root) {
          LowLow(huff, k, root);
        }
        assert table'[i] == table[i];
      }
    } else {
      var low := Low(h, root);
      var own := table[low];
      assert table'[low] == own;
      var d := k - root;
      forall j: nat | j < Pow2(own.op) && Low(j, d) == Drop(h, root)
        ensures table'[own.val + j] == SymbolEntry(kind, s, k - root)
      {
        assert own.val + j != Low(huff, root);
        assert table'[own.val + j] == table[own.val + j];
      }
    }
  }
}
