/** The accounting of a b-tree node's key area: the list of free bytes, the
    bytes of the keys, and their comparison (apfsck/btree.c:126-176, 425-455,
    528-626). */
module NodeArea {
  import opened Prelude
  import opened Allocation
  import Bytes = ZbmFormat

  const INVALID: nat := 0xFFFF

  // ----- Bitmaps with a bit for each byte of the area

  predicate BitAt(bm: seq<byte>, i: nat)
    requires i < 8 * |bm|
  {
    Bytes.Bit(bm[i / 8], i % 8)
  }

  /** The positions of the ones, among the first n. */
  ghost function Ones(bm: seq<byte>, n: nat): (s: set<nat>)
    requires n <= 8 * |bm|
  {
    set i: nat | i < n && BitAt(bm, i)
  }

  lemma Flip(b: byte, i: nat)
    requires i < 8
    ensures forall j: nat | j < 8 :: Bytes.Bit(b ^ (1 << i), j) <==> (Bytes.Bit(b, j) != (j == i))
  {
  }

  lemma AllOnes()
    ensures forall j: nat | j < 8 :: Bytes.Bit(0xFF, j)
  {
  }

  /** One byte of a bitmap changes in one bit. */
  lemma ChangeOne(bm: seq<byte>, i: nat, b: byte, n: nat, on: bool)
    requires i < n <= 8 * |bm| && BitAt(bm, i) != on
    requires forall j: nat | j < 8 :: Bytes.Bit(b, j) <==> if j == i % 8 then on else Bytes.Bit(bm[i / 8], j)
    ensures Ones(bm[i / 8 := b], n) == if on then Ones(bm, n) + {i} else Ones(bm, n) - {i}
  {
    hide Bytes.Bit;
    var bm' := bm[i / 8 := b];
    forall j: nat | j < n
      ensures BitAt(bm', j) <==> if j == i then on else BitAt(bm, j)
    {
    }
  }

  /** `*byte |= flag`, for a bit that is not set. */
  method SetOne(bm: array<byte>, i: nat, ghost n: nat)
    requires i < n <= 8 * bm.Length && !BitAt(bm[..], i)
    modifies bm
    ensures Ones(bm[..], n) == old(Ones(bm[..], n)) + {i}
  {
    hide Ones;
    ghost var before := bm[..];
    var b := bm[i / 8] | (1 << (i % 8));
    Bytes.SetBitBits(bm[i / 8], i % 8, true);
    ChangeOne(before, i, b, n, true);
    bm[i / 8] := b;
    assert bm[..] == before[i / 8 := b];
  }

  /** `*byte ^= flag`, for a bit that is set. */
  method ClearOne(bm: array<byte>, i: nat, ghost n: nat)
    requires i < n <= 8 * bm.Length && BitAt(bm[..], i)
    modifies bm
    ensures Ones(bm[..], n) == old(Ones(bm[..], n)) - {i}
  {
    hide Ones, Bytes.Bit;
    ghost var before := bm[..];
    var b := bm[i / 8] ^ (1 << (i % 8));
    Flip(bm[i / 8], i % 8);
    ChangeOne(before, i, b, n, false);
    bm[i / 8] := b;
    assert bm[..] == before[i / 8 := b];
  }

  /** bmap_mark_as_used(): no byte may be marked twice. */
  method MarkUsed(bm: array<byte>, off: nat, len: nat, ghost n: nat) returns (ok: bool)
    requires off + len <= n <= 8 * bm.Length
    modifies bm
    ensures ok <==> Blocks(off, len) !! old(Ones(bm[..], n))
    ensures ok ==> Ones(bm[..], n) == old(Ones(bm[..], n)) + Blocks(off, len)
  {
    hide Ones, BitAt;
    ghost var before := Ones(bm[..], n);
    for i := off to off + len
      invariant Blocks(off, i - off) !! before && Ones(bm[..], n) == before + Blocks(off, i - off)
    {
      IsOne(bm[..], i, n);
      if BitAt(bm[..], i) {
        return false;
      }
      SetOne(bm, i, n);
    }
    ok := true;
  }

  lemma IsOne(bm: seq<byte>, i: nat, n: nat)
    requires i < n <= 8 * |bm|
    ensures i in Ones(bm, n) <==> BitAt(bm, i)
    ensures BitAt(bm, i) <==> bm[i / 8] & (1 << (i % 8)) != 0
  {
  }

  /** The bytes of a free entry: none may be listed twice. */
  method ClearRange(bm: array<byte>, off: nat, len: nat, ghost n: nat) returns (ok: bool)
    requires off + len <= n <= 8 * bm.Length
    modifies bm
    ensures ok <==> Blocks(off, len) <= old(Ones(bm[..], n))
    ensures ok ==> Ones(bm[..], n) == old(Ones(bm[..], n)) - Blocks(off, len)
  {
    hide Ones, BitAt;
    ghost var before := Ones(bm[..], n);
    for i := off to off + len
      invariant Blocks(off, i - off) <= before && Ones(bm[..], n) == before - Blocks(off, i - off)
    {
      IsOne(bm[..], i, n);
      if !BitAt(bm[..], i) {
        return false;
      }
      ClearOne(bm, i, n);
    }
    ok := true;
  }

  // ----- Ranges of bytes

  datatype Range = Range(off: nat, len: nat)

  function Covered(rs: seq<Range>): (s: set<nat>)
  {
    if rs == [] then {} else Covered(rs[..|rs| - 1]) + Blocks(rs[|rs| - 1].off, rs[|rs| - 1].len)
  }

  function TotalLen(rs: seq<Range>): (n: nat)
  {
    if rs == [] then 0 else TotalLen(rs[..|rs| - 1]) + rs[|rs| - 1].len
  }

  ghost predicate PairwiseDisjoint(rs: seq<Range>)
  {
    forall i: nat, j: nat | i < j < |rs| :: Blocks(rs[i].off, rs[i].len) !! Blocks(rs[j].off, rs[j].len)
  }

  lemma {:induction false} CoveredHas(rs: seq<Range>, i: nat)
    requires i < |rs|
    ensures Blocks(rs[i].off, rs[i].len) <= Covered(rs)
  {
    hide Blocks;
    if i < |rs| - 1 {
      CoveredHas(rs[..|rs| - 1], i);
    }
  }

  lemma OneMoreRange(rs: seq<Range>, r: Range)
    requires PairwiseDisjoint(rs) && Blocks(r.off, r.len) !! Covered(rs)
    ensures PairwiseDisjoint(rs + [r]) && Covered(rs + [r]) == Covered(rs) + Blocks(r.off, r.len)
    ensures TotalLen(rs + [r]) == TotalLen(rs) + r.len
  {
    hide Blocks;
    assert (rs + [r])[..|rs|] == rs;
    forall i: nat | i < |rs|
      ensures Blocks(rs[i].off, rs[i].len) !! Blocks(r.off, r.len)
    {
      CoveredHas(rs, i);
    }
  }

  lemma {:induction false} CoveredApart(rs: seq<Range>, s: set<nat>)
    requires forall i: nat | i < |rs| :: Blocks(rs[i].off, rs[i].len) !! s
    ensures Covered(rs) !! s
  {
    hide Blocks;
    if rs != [] {
      CoveredApart(rs[..|rs| - 1], s);
    }
  }

  /** A range of a disjoint list is apart from all that come before it. */
  lemma DisjointFromEarlier(rs: seq<Range>, k: nat)
    requires PairwiseDisjoint(rs) && k < |rs|
    ensures Blocks(rs[k].off, rs[k].len) !! Covered(rs[..k])
  {
    hide Blocks;
    CoveredApart(rs[..k], Blocks(rs[k].off, rs[k].len));
  }

  // ----- The list of free bytes

  function U16At(area: seq<byte>, p: nat): (r: nat)
    requires p + 1 < |area|
  {
    ByteVal(area[p]) + 256 * ByteVal(area[p + 1])
  }

  /** An entry of the list: its own first four bytes hold the offset of the next
      one and its length. */
  ghost predicate Entry(area: seq<byte>, r: Range, next: nat)
  {
    && r.off + 4 <= |area| && 4 <= r.len && r.off + r.len <= |area|
    && r.len == U16At(area, r.off + 2) && next == U16At(area, r.off)
  }

  /** An entry as bytes: the offset of the next one and its own length, both with the
      least significant byte first. */
  lemma EntryBytes(area: seq<byte>, r: Range, next: nat)
    requires r.off + 4 <= |area|
    ensures Entry(area, r, next) <==>
            && LittleEndianValue(area[r.off..r.off + 2]) == next
            && LittleEndianValue(area[r.off + 2..r.off + 4]) == r.len
            && 4 <= r.len && r.off + r.len <= |area|
  {
    TwoBytes(area, r.off);
    TwoBytes(area, r.off + 2);
  }

  lemma TwoBytes(area: seq<byte>, p: nat)
    requires p + 2 <= |area|
    ensures U16At(area, p) == LittleEndianValue(area[p..p + 2])
  {
    hide ByteVal;
    assert area[p..p + 2] == [area[p], area[p + 1]];
    LittleEndianBytes(area[p], area[p + 1], 0);
  }

  /** The entries from the head on; `at` is the offset of the next one. */
  ghost predicate Linked(area: seq<byte>, head: nat, list: seq<Range>, at: nat)
  {
    && (if list == [] then head == at else head == list[0].off)
    && forall i: nat | i < |list| :: EntryAt(area, list, at, i)
  }

  ghost predicate EntryAt(area: seq<byte>, list: seq<Range>, at: nat, i: nat)
    requires i < |list|
  {
    Entry(area, list[i], if i == |list| - 1 then at else list[i + 1].off)
  }

  lemma LinkedMore(area: seq<byte>, head: nat, list: seq<Range>, r: Range, next: nat)
    requires Linked(area, head, list, r.off) && Entry(area, r, next)
    ensures Linked(area, head, list + [r], next)
  {
    hide Entry;
    var longer := list + [r];
    forall i: nat | i < |longer|
      ensures EntryAt(area, longer, next, i)
    {
      assert i < |list| ==> EntryAt(area, list, r.off, i);
    }
  }

  /** All that is asked of the list: it is linked to the end, no byte is in it
      twice, and the total of the header does not run out before the last entry. */
  ghost predicate FreeList(area: seq<byte>, head: nat, total: nat, list: seq<Range>)
  {
    && Linked(area, head, list, INVALID) && PairwiseDisjoint(list)
    && forall i: nat | i < |list| :: list[i].off != INVALID && TotalLen(list[..i]) < total
  }

  /** How any such list goes on, after the entries that were seen. */
  lemma GoesOn(area: seq<byte>, head: nat, total: nat, seen: seq<Range>, at: nat, list: seq<Range>)
    requires Linked(area, head, seen, at) && FreeList(area, head, total, list) && seen <= list
    ensures if at == INVALID then list == seen
            else
              && |seen| < |list| && TotalLen(seen) < total
              && var r := list[|seen|];
                 && r.off == at && r.off + 4 <= |area| && 4 <= r.len && r.off + r.len <= |area|
                 && r.len == U16At(area, at + 2) && Blocks(at, r.len) !! Covered(seen)
  {
    hide TotalLen, Covered, PairwiseDisjoint, U16At;
    var n := |seen|;
    if n > 0 {
      assert EntryAt(area, seen, at, n - 1) && EntryAt(area, list, INVALID, n - 1);
    }
    if n < |list| {
      assert EntryAt(area, list, INVALID, n);
      assert list[..n] == seen;
      DisjointFromEarlier(list, n);
    } else {
      assert list == seen;
    }
  }

  /** What was seen is the start of every list that is accepted. */
  ghost predicate Forced(area: seq<byte>, head: nat, total: nat, seen: seq<Range>)
  {
    forall list: seq<Range> | FreeList(area, head, total, list) :: seen <= list
  }

  lemma ForcedNext(area: seq<byte>, head: nat, total: nat, seen: seq<Range>, at: nat)
    requires Linked(area, head, seen, at) && Forced(area, head, total, seen)
    ensures at == INVALID ==> forall list: seq<Range> | FreeList(area, head, total, list) :: list == seen
    ensures at != INVALID ==>
              forall list: seq<Range> | FreeList(area, head, total, list) ::
                && TotalLen(seen) < total && at + 4 <= |area|
                && var r := Range(at, U16At(area, at + 2));
                   4 <= r.len && at + r.len <= |area| && Blocks(at, r.len) !! Covered(seen) && seen + [r] <= list
  {
    hide FreeList, Linked, TotalLen, Covered, U16At, Blocks;
    forall list: seq<Range> | FreeList(area, head, total, list)
      ensures if at == INVALID then list == seen
              else
                && TotalLen(seen) < total && at + 4 <= |area|
                && var r := Range(at, U16At(area, at + 2));
                   4 <= r.len && at + r.len <= |area| && Blocks(at, r.len) !! Covered(seen) && seen + [r] <= list
    {
      GoesOn(area, head, total, seen, at, list);
    }
  }

  /** node_parse_key_free_list(): terminates, because every entry takes some of
      the total. A one in the bitmap says that the byte is not listed. */
  method ParseFreeList(area: seq<byte>, head: nat, headLen: nat) returns (ok: bool, bm: array<byte>, ghost list: seq<Range>)
    ensures fresh(bm) && bm.Length == (|area| + 7) / 8
    ensures ok <==> exists l: seq<Range> :: FreeList(area, head, headLen, l)
    ensures ok ==> forall l: seq<Range> :: FreeList(area, head, headLen, l) <==> l == list
    ensures ok ==> Ones(bm[..], |area|) == Blocks(0, |area|) - Covered(list)
  {
    hide Ones, Linked, Covered, PairwiseDisjoint, FreeList, TotalLen, U16At, Blocks, Entry, Forced;
    ghost var n := |area|;
    bm := new byte[(|area| + 7) / 8](_ => 0xFF);
    list := [];
    NothingListed(bm[..], n, area, head, headLen);
    var off: nat, total: int := head, headLen;
    while total > 0
      invariant Listed(area, head, headLen, list, off) && Forced(area, head, headLen, list)
      invariant Ones(bm[..], n) == Blocks(0, n) - Covered(list) && total == headLen - TotalLen(list)
      decreases total
    {
      ForcedNext(area, head, headLen, list, off);
      if off == INVALID {
        break;
      }
      if off + 4 > |area| {
        return false, bm, list;
      }
      var len := U16At(area, off + 2);
      if len < 4 || off + len > |area| {
        return false, bm, list;
      }
      ClearsUnlisted(off, len, n, Covered(list));
      var cleared := ClearRange(bm, off, len, n);
      if !cleared {
        return false, bm, list;
      }
      ListedMore(area, head, headLen, list, Range(off, len));
      list := list + [Range(off, len)];
      total := total - len;
      off := U16At(area, off);
    }
    ForcedNext(area, head, headLen, list, off);
    if off == INVALID {
      AllListed(area, head, headLen, list);
    }
    ok := off == INVALID;
  }

  lemma ClearsUnlisted(off: nat, len: nat, n: nat, listed: set<nat>)
    requires off + len <= n
    ensures Blocks(off, len) <= Blocks(0, n) - listed <==> Blocks(off, len) !! listed
    ensures Blocks(0, n) - listed - Blocks(off, len) == Blocks(0, n) - (listed + Blocks(off, len))
  {
  }

  /** The entries up to one that is not yet looked at. */
  ghost predicate Listed(area: seq<byte>, head: nat, total: nat, list: seq<Range>, at: nat)
  {
    && Linked(area, head, list, at) && PairwiseDisjoint(list)
    && forall i: nat | i < |list| :: list[i].off != INVALID && TotalLen(list[..i]) < total
  }

  lemma AllListed(area: seq<byte>, head: nat, total: nat, list: seq<Range>)
    requires Listed(area, head, total, list, INVALID)
    ensures FreeList(area, head, total, list)
  {
  }

  lemma ListedMore(area: seq<byte>, head: nat, total: nat, list: seq<Range>, r: Range)
    requires Listed(area, head, total, list, r.off) && r.off != INVALID && TotalLen(list) < total
    requires r.off + 4 <= |area| && 4 <= r.len && r.off + r.len <= |area| && r.len == U16At(area, r.off + 2)
    requires Blocks(r.off, r.len) !! Covered(list) && Forced(area, head, total, list)
    ensures Listed(area, head, total, list + [r], U16At(area, r.off)) && Forced(area, head, total, list + [r])
    ensures Covered(list + [r]) == Covered(list) + Blocks(r.off, r.len) && TotalLen(list + [r]) == TotalLen(list) + r.len
  {
    hide Linked, Covered, PairwiseDisjoint, TotalLen, U16At, Blocks, FreeList;
    ForcedNext(area, head, total, list, r.off);
    LinkedMore(area, head, list, r, U16At(area, r.off));
    OneMoreRange(list, r);
    var longer := list + [r];
    forall i: nat | i < |longer|
      ensures longer[i].off != INVALID && TotalLen(longer[..i]) < total
    {
      assert longer[..i] == list[..i];
      assert list[..|list|] == list;
    }
  }

  lemma NothingListed(bm: seq<byte>, n: nat, area: seq<byte>, head: nat, total: nat)
    requires n <= 8 * |bm| && forall i: nat | i < |bm| :: bm[i] == 0xFF
    ensures Ones(bm, n) == Blocks(0, n) - Covered([]) && TotalLen([]) == 0
    ensures Listed(area, head, total, [], head) && Forced(area, head, total, [])
  {
    AllOnes();
  }

  // ----- The comparison

  lemma OnesStep(bm: seq<byte>, p: nat)
    requires p < 8 * |bm|
    ensures Ones(bm, p + 1) == Ones(bm, p) + (if BitAt(bm, p) then {p} else {})
    ensures |Ones(bm, p + 1)| == |Ones(bm, p)| + (if BitAt(bm, p) then 1 else 0)
  {
    hide BitAt;
    assert Ones(bm, p + 1) == Ones(bm, p) + (if BitAt(bm, p) then {p} else {});
  }

  lemma ByteIncluded(f: byte, u: byte)
    ensures f | u == f <==> forall j: nat | j < 8 :: Bytes.Bit(u, j) ==> Bytes.Bit(f, j)
  {
    if f | u != f {
      if forall j: nat | j < 8 :: Bytes.Bit(u, j) ==> Bytes.Bit(f, j) {
        forall j: nat | j < 8
          ensures Bytes.Bit(f | u, j) == Bytes.Bit(f, j)
        {
          OrBit(f, u, j);
        }
        Bytes.ByteExtensional(f | u, f);
      }
    } else {
      forall j: nat | j < 8
        ensures Bytes.Bit(u, j) ==> Bytes.Bit(f, j)
      {
        OrBit(f, u, j);
      }
    }
  }

  lemma OrBit(f: byte, u: byte, j: nat)
    requires j < 8
    ensures Bytes.Bit(f | u, j) <==> Bytes.Bit(f, j) || Bytes.Bit(u, j)
  {
  }

  /** compare_bmaps(): counts the bytes not in use, and checks that those in use
      are not listed as free; with care for the last byte of the bitmaps. */
  method CompareBmaps(free: seq<byte>, used: seq<byte>, n: nat) returns (ok: bool, unused: nat)
    requires |free| == |used| == (n + 7) / 8
    ensures ok <==> Ones(used, n) <= Ones(free, n)
    ensures ok ==> unused == n - |Ones(used, n)|
  {
    hide Ones, BitAt;
    unused := 0;
    NoOnes(free, used);
    for i := 0 to n / 8
      invariant unused == 8 * i - |Ones(used, 8 * i)|
      invariant Ones(used, 8 * i) <= Ones(free, 8 * i)
    {
      unused := CountByte(used, i, unused);
      BytesIncluded(free, used, i, n);
      if free[i] | used[i] != free[i] {
        return false, unused;
      }
    }
    for j := 0 to n % 8
      invariant var p := 8 * (n / 8) + j; unused == p - |Ones(used, p)| && Ones(used, p) <= Ones(free, p)
    {
      var p := 8 * (n / 8) + j;
      OnesStep(used, p);
      OnesStep(free, p);
      OneIncluded(free, used, p, n);
      if !BitAt(used, p) {
        unused := unused + 1;
      }
      if BitAt(used, p) && !BitAt(free, p) {
        return false, unused;
      }
    }
    ok := true;
  }

  method CountByte(used: seq<byte>, i: nat, before: nat) returns (unused: nat)
    requires i < |used| && before == 8 * i - |Ones(used, 8 * i)|
    ensures unused == 8 * i + 8 - |Ones(used, 8 * i + 8)|
  {
    hide Ones, BitAt;
    unused := before;
    for j := 0 to 8
      invariant unused == 8 * i + j - |Ones(used, 8 * i + j)|
    {
      OnesStep(used, 8 * i + j);
      if !BitAt(used, 8 * i + j) {
        unused := unused + 1;
      }
    }
  }

  lemma NoOnes(free: seq<byte>, used: seq<byte>)
    ensures Ones(free, 0) == {} && Ones(used, 0) == {}
  {
  }

  lemma OneIncluded(free: seq<byte>, used: seq<byte>, p: nat, n: nat)
    requires p < n <= 8 * |free| && n <= 8 * |used|
    ensures BitAt(used, p) && !BitAt(free, p) ==> !(Ones(used, n) <= Ones(free, n))
  {
    IsOne(free, p, n);
    IsOne(used, p, n);
  }

  lemma BytesIncluded(free: seq<byte>, used: seq<byte>, i: nat, n: nat)
    requires i < n / 8 && n <= 8 * |free| && n <= 8 * |used| && Ones(used, 8 * i) <= Ones(free, 8 * i)
    ensures free[i] | used[i] == free[i] ==> Ones(used, 8 * i + 8) <= Ones(free, 8 * i + 8)
    ensures free[i] | used[i] != free[i] ==> !(Ones(used, n) <= Ones(free, n))
  {
    hide Ones, Bytes.Bit;
    ByteIncluded(free[i], used[i]);
    if free[i] | used[i] == free[i] {
      var u, f := Ones(used, 8 * i + 8), Ones(free, 8 * i + 8);
      forall p | p in u
        ensures p in f
      {
        WithinByte(free, used, i, p);
      }
    } else {
      var j: nat :| j < 8 && Bytes.Bit(used[i], j) && !Bytes.Bit(free[i], j);
      assert (8 * i + j) / 8 == i && (8 * i + j) % 8 == j;
      OneIncluded(free, used, 8 * i + j, n);
    }
  }

  lemma WithinByte(free: seq<byte>, used: seq<byte>, i: nat, p: nat)
    requires i < |free| && i < |used| && Ones(used, 8 * i) <= Ones(free, 8 * i) && p in Ones(used, 8 * i + 8)
    requires forall j: nat | j < 8 :: Bytes.Bit(used[i], j) ==> Bytes.Bit(free[i], j)
    ensures p in Ones(free, 8 * i + 8)
  {
    hide Bytes.Bit;
    if p < 8 * i {
      assert p in Ones(used, 8 * i);
    } else {
      assert p / 8 == i;
    }
  }

  // ----- The whole key area

  ghost predicate Within(rs: seq<Range>, n: nat)
  {
    forall k: nat | k < |rs| :: rs[k].off + rs[k].len <= n
  }

  /** The bytes of the keys, in the order of the table of contents. */
  method MarkKeys(used: array<byte>, keys: seq<Range>, n: nat) returns (ok: bool)
    requires n <= 8 * used.Length && forall i: nat | i < used.Length :: used[i] == 0
    modifies used
    ensures ok <==> Within(keys, n) && PairwiseDisjoint(keys)
    ensures ok ==> Ones(used[..], n) == Covered(keys) && |Covered(keys)| == TotalLen(keys)
  {
    hide Ones, Covered, PairwiseDisjoint, TotalLen, Blocks;
    NothingUsed(used[..], n);
    for k := 0 to |keys|
      invariant Ones(used[..], n) == Covered(keys[..k]) && PairwiseDisjoint(keys[..k]) && Within(keys[..k], n)
      invariant |Covered(keys[..k])| == TotalLen(keys[..k])
    {
      var r := keys[k];
      if r.off + r.len > n {
        return false;
      }
      ok := MarkUsed(used, r.off, r.len, n);
      if !ok {
        if PairwiseDisjoint(keys) {
          DisjointFromEarlier(keys, k);
        }
        return;
      }
      assert keys[..k + 1] == keys[..k] + [r];
      OneMoreRange(keys[..k], r);
      BlocksSize(r.off, r.len);
    }
    assert keys[..|keys|] == keys;
    ok := true;
  }

  /** What a node's key area passes: the free list, the keys in the order of the
      table of contents, and the free total of the header. */
  ghost predicate KeyArea(area: seq<byte>, head: nat, headLen: nat, keys: seq<Range>, list: seq<Range>)
  {
    && FreeList(area, head, headLen, list) && Within(keys, |area|) && PairwiseDisjoint(keys)
    && Covered(keys) !! Covered(list) && headLen + TotalLen(keys) == |area|
  }

  method CheckKeyArea(area: seq<byte>, head: nat, headLen: nat, keys: seq<Range>) returns (ok: bool, ghost list: seq<Range>)
    ensures ok <==> exists l: seq<Range> :: KeyArea(area, head, headLen, keys, l)
    ensures ok ==> KeyArea(area, head, headLen, keys, list)
  {
    hide Ones, FreeList, Covered, PairwiseDisjoint, TotalLen, Within, Blocks;
    var n := |area|;
    var free;
    ok, free, list := ParseFreeList(area, head, headLen);
    if !ok {
      return;
    }
    OnlyList(area, head, headLen, keys, list);
    var used := new byte[(n + 7) / 8](_ => 0);
    ok := MarkKeys(used, keys, n);
    if !ok {
      return;
    }
    CoveredWithin(keys, n);
    Apart(Covered(keys), Covered(list), n);
    var unused;
    ok, unused := CompareBmaps(free[..], used[..], n);
    ok := ok && unused == headLen;
  }

  lemma OnlyList(area: seq<byte>, head: nat, headLen: nat, keys: seq<Range>, list: seq<Range>)
    requires forall l: seq<Range> :: FreeList(area, head, headLen, l) <==> l == list
    ensures FreeList(area, head, headLen, list)
    ensures (exists l: seq<Range> :: KeyArea(area, head, headLen, keys, l)) <==> KeyArea(area, head, headLen, keys, list)
  {
    hide FreeList, Within, PairwiseDisjoint, Covered, TotalLen;
    if l: seq<Range> :| KeyArea(area, head, headLen, keys, l) {
      assert l == list;
    }
  }

  lemma {:induction false} CoveredWithin(rs: seq<Range>, n: nat)
    requires Within(rs, n)
    ensures Covered(rs) <= Blocks(0, n)
  {
    if rs != [] {
      CoveredWithin(rs[..|rs| - 1], n);
    }
  }

  lemma Apart(a: set<nat>, b: set<nat>, n: nat)
    requires a <= Blocks(0, n)
    ensures a <= Blocks(0, n) - b <==> a !! b
  {
  }

  lemma NothingUsed(bm: seq<byte>, n: nat)
    requires n <= 8 * |bm| && forall i: nat | i < |bm| :: bm[i] == 0
    ensures Ones(bm, n) == {} == Covered([]) && PairwiseDisjoint([]) && TotalLen([]) == 0
  {
    Bytes.ZeroBits();
  }
}
