/** The encoder as the source runs it (lib/libzbitmap.c:441-1180): one state that
    is reused for every chunk. The output is a growing sequence, as the cursor of
    the source may pass the limit of the chunk before the encoder gives up; its
    contracts say exactly when. Each method is proved equal to the function that
    specifies it, from any state that earlier chunks may have left behind. */
module ZbmEncoder {
  import opened Prelude
  import opened ZbmFormat
  import opened ZbmEncode

  // ----- zbm_find_good_pattern

  method FindNear(src: seq<byte>, pos: nat, n: nat, start: nat, first: Best) returns (best: Best)
    requires n <= 8 && pos + n <= |src| && ValidPlace(pos, first.at) && pos <= start + 0xff
    ensures best == ScanNear(src, pos, n, start, first)
  {
    hide Cost;
    best := first;
    var at := start;
    while at + 8 <= pos
      invariant start <= at && ValidPlace(pos, best.at)
      invariant ScanNear(src, pos, n, start, first) == ScanNear(src, pos, n, at, best)
      decreases pos - at
    {
      var diff := Cost(src, at, pos, n);
      if diff + 1 < best.cost {
        best := Best(at, diff + 1);
        if best.cost == 1 {
          return;
        }
      }
      at := at + 1;
    }
  }

  /** memchr finds the next place that starts with the right byte. */
  method FindFar(src: seq<byte>, pos: nat, n: nat, start: nat, split: nat, first: Best) returns (best: Best)
    requires 0 < n <= 8 && pos + n <= |src| && split + 8 <= pos && ValidPlace(pos, first.at) && pos <= start + 0xffff
    ensures best == ScanFar(src, pos, n, start, split, first)
  {
    hide Cost;
    best := first;
    var at := start;
    while at < split
      invariant start <= at && ValidPlace(pos, best.at)
      invariant ScanFar(src, pos, n, start, split, first) == ScanFar(src, pos, n, at, split, best)
      decreases split - at
    {
      var next := at;
      while next < split && src[next] != src[pos]
        invariant at <= next <= split
        invariant ScanFar(src, pos, n, at, split, best) == ScanFar(src, pos, n, next, split, best)
        decreases split - next
      {
        next := next + 1;
      }
      if next == split {
        return;
      }
      var diff := Cost(src, next, pos, n);
      if diff + 2 < best.cost {
        best := Best(next, diff + 2);
        if best.cost == 2 {
          return;
        }
      }
      at := next + 1;
    }
  }

  method FindGoodPattern(src: seq<byte>, pos: nat, n: nat, period: nat) returns (at: nat)
    requires 0 < n <= 8 && pos + n <= |src| && MIN_PERIOD <= period <= Min(pos, MAX_PERIOD)
    ensures at == GoodPattern(src, pos, n, period)
  {
    hide Cost, ScanNear, ScanFar;
    var best := Best(pos - period, Cost(src, pos - period, pos, n));
    if best.cost <= 1 {
      return best.at;
    }
    var split := pos - Min(0xff, pos);
    best := FindNear(src, pos, n, split, best);
    if best.cost <= 2 {
      return best.at;
    }
    best := FindFar(src, pos, n, pos - Min(0xffff, pos), split, best);
    at := best.at;
  }

  // ----- Facts that turn the recursive specifications into loop invariants

  ghost function Prepend(ops: seq<Op>, lits: seq<byte>, r: Option<Coded>): Option<Coded>
  {
    if r.None? then None else Some(Coded(ops + r.value.ops, lits + r.value.lits))
  }

  ghost function PrependBytes(s: seq<byte>, r: Option<seq<byte>>): Option<seq<byte>>
  {
    if r.None? then None else Some(s + r.value)
  }

  lemma PrependStep(src: seq<byte>, end: nat, pos: nat, period: nat, w: nat, limit: nat, ops: seq<Op>, lits: seq<byte>, op: Op, lit: seq<byte>)
    requires pos < end <= |src| && MIN_PERIOD <= period <= Min(pos, MAX_PERIOD)
    requires op == NewOp(src, pos, Min(8, end - pos), period)
    requires WriteNew(src, pos, Min(8, end - pos), op.bmap.bitmap, 0, w, limit) == Some(lit)
    ensures Prepend(ops, lits, EncodeOps(src, end, pos, period, w, limit))
            == Prepend(ops + [op], lits + lit, EncodeOps(src, end, pos + Min(8, end - pos), op.period, w + |lit|, limit))
  {
    hide NewOp, WriteNew;
    var rest := EncodeOps(src, end, pos + Min(8, end - pos), op.period, w + |lit|, limit);
    if rest.Some? {
      assert ops + ([op] + rest.value.ops) == (ops + [op]) + rest.value.ops;
      assert lits + (lit + rest.value.lits) == (lits + lit) + rest.value.lits;
    }
  }

  lemma {:induction false} UseCountAppend(ops: seq<Op>, op: Op, b: Bmap)
    ensures UseCount(ops + [op], b) == UseCount(ops, b) + (if op.bmap == b then 1 else 0)
  {
    if ops == [] {
      assert ops + [op] == [op];
    } else {
      assert (ops + [op])[1..] == ops[1..] + [op];
      UseCountAppend(ops[1..], op, b);
    }
  }

  lemma {:induction false} UsedOp(ops: seq<Op>, i: nat)
    requires i < |ops|
    ensures UseCount(ops, ops[i].bmap) > 0
  {
    if i > 0 {
      UsedOp(ops[1..], i - 1);
    }
  }

  lemma {:induction false} RunPrefix(nums: seq<byte>, r: nat)
    requires 1 <= r <= |nums| && forall i | 0 <= i < r :: nums[i] == nums[0]
    requires r == |nums| || nums[r] != nums[0]
    ensures Run(nums) == r
  {
    if r > 1 {
      RunPrefix(nums[1..], r - 1);
    }
  }

  /** The nibble pointer of the encoder, over an area with room for some bytes. */
  class NibbleWriter {
    const room: int
    var area: seq<byte>
    var high: bool
    ghost var nibbles: seq<byte>

    ghost predicate Valid()
      reads this
    {
      && area == PackNibbles(nibbles) && high == (|nibbles| % 2 == 1)
      && !Overflows(|nibbles|, room)
    }

    constructor (room: int)
      ensures Valid() && nibbles == [] && this.room == room
    {
      this.room := room;
      area, high, nibbles := [], false, [];
    }

    /** zbm_write_nibble */
    method Put(val: byte) returns (ok: bool)
      requires Valid()
      modifies this
      ensures Valid() && ok == !Overflows(|old(nibbles)| + 1, room)
      ensures ok ==> nibbles == old(nibbles) + [val]
    {
      ghost var all := nibbles + [val];
      assert all[..|nibbles|] == nibbles;
      if (if high then |area| - 1 else |area|) >= room {
        return false;
      }
      if !high {
        area := area + [val];
        high := true;
      } else {
        area := area[|area| - 1 := area[|area| - 1] | (val << 4)];
        high := false;
      }
      nibbles := all;
      ok := true;
    }

    /** zbm_write_repetition_count */
    method PutCount(run: nat) returns (ok: bool)
      requires Valid() && run >= 4
      modifies this
      ensures Valid() && ok == !Overflows(|old(nibbles)| + 1 + |CountNibbles(run - 4)|, room)
      ensures ok ==> nibbles == old(nibbles) + [15] + CountNibbles(run - 4)
    {
      hide CountNibbles, ToByte, Overflows, PackNibbles;
      ghost var target := nibbles + [15] + CountNibbles(run - 4);
      ghost var todo := CountNibbles(run - 4);
      OverflowsMore(|nibbles| + 1, |target|, room);
      ok := Put(15);
      if !ok {
        return;
      }
      var repeat, full := run - 4, true;
      while repeat > 0
        modifies this
        invariant repeat >= 0 && Valid() && nibbles + todo == target
        invariant todo == if full then CountNibbles(repeat) else []
        invariant !full ==> repeat == 0
        decreases repeat
      {
        var nibble := Min(repeat, 15);
        CountHead(repeat);
        OverflowsMore(|nibbles| + 1, |target|, room);
        ok := Put(ToByte(nibble));
        if !ok {
          return;
        }
        assert nibbles + todo[1..] == target;
        todo := todo[1..];
        repeat := repeat - nibble;
        full := nibble == 15;
      }
      if full {
        CountHead(0);
        assert todo == [0];
        ok := Put(0);
      }
    }

    /** One turn of the loop of zbm_write_metadata_3 */
    method PutRun(num: byte, run: nat) returns (ok: bool)
      requires Valid() && num < 15 && run > 0
      modifies this
      ensures Valid() && ok == !Overflows(|old(nibbles)| + |RunNibbles(num, run)|, room)
      ensures ok ==> nibbles == old(nibbles) + RunNibbles(num, run)
    {
      hide CountNibbles, Overflows, PackNibbles;
      ghost var target := nibbles + RunNibbles(num, run);
      OverflowsMore(|nibbles| + 1, |target|, room);
      ok := Put(num);
      if !ok {
        return;
      }
      if run <= 3 {
        for j := 1 to run
          modifies this
          invariant Valid() && nibbles + Same(num, run - j) == target
        {
          OverflowsMore(|nibbles| + 1, |target|, room);
          ok := Put(num);
          if !ok {
            return;
          }
        }
        ok := true;
      } else {
        assert nibbles + [15] + CountNibbles(run - 4) == target;
        ok := PutCount(run);
      }
    }
  }

  lemma OverflowsMore(k: nat, l: nat, room: int)
    requires k <= l
    ensures Overflows(k, room) ==> Overflows(l, room)
  {
  }

  lemma CountHead(count: nat)
    ensures CountNibbles(count)[0] == ToByte(Min(count, 15))
    ensures CountNibbles(count)[1..] == if count < 15 then [] else CountNibbles(count - 15)
    ensures count == 0 ==> CountNibbles(0) == [0]
  {
  }

  /** The last of k nibbles does not fit in the room that is left. */
  predicate Overflows(k: nat, room: int)
  {
    k > 0 && (k - 1) / 2 >= room
  }

  function Uses(usecnts: map<Bmap, nat>, b: Bmap): nat
  {
    if b in usecnts then usecnts[b] else 0
  }

  /** The cursor moved on, and did not pass the limit if it was not past it. */
  ghost predicate Grown(before: nat, after: nat, limit: nat)
  {
    before <= after && (before <= limit ==> after <= limit)
  }

  lemma NibblesFit(ns: seq<byte>, w: nat, limit: nat)
    requires !Overflows(|ns|, limit - w)
    ensures Grown(w, w + |PackNibbles(ns)|, limit)
  {
    hide PackNibbles;
  }

  class Encoder {
    const src: seq<byte>
    var out: seq<byte>            // the bytes of the current chunk
    var period: nat
    var ops: seq<Op>              // the bitmaps and periods arrays, up to bmp_cnt
    var usecnts: map<Bmap, nat>
    var topBitmaps: seq<Bmap>
    ghost var found: seq<Top>
    ghost var peak: nat           // how far the cursor went in the current chunk

    constructor (src: seq<byte>)
      ensures this.src == src
    {
      this.src := src;
      out, period, ops, usecnts, topBitmaps, found, peak := [], 0, [], map[], [], [], 0;
    }

    ghost predicate CountsUses()
      reads this`usecnts, this`ops
    {
      forall b :: Uses(usecnts, b) == UseCount(ops, b)
    }

    /** zbm_append_new_bitmap */
    method AppendNewBitmap(bitmap: byte, newPeriod: nat)
      requires CountsUses()
      modifies this`ops, this`usecnts, this`period
      ensures CountsUses() && period == newPeriod
      ensures ops == old(ops) + [Op(Bmap(bitmap, PeriodBytecnt(newPeriod, old(period))), newPeriod)]
    {
      var b := Bmap(bitmap, if newPeriod == period then 0 else if newPeriod <= 0xff then 1 else 2);
      var op := Op(b, newPeriod);
      forall x ensures UseCount(ops + [op], x) == UseCount(ops, x) + (if b == x then 1 else 0) {
        UseCountAppend(ops, op, x);
      }
      ops := ops + [op];
      usecnts := usecnts[b := Uses(usecnts, b) + 1];
      period := newPeriod;
    }

    /** zbm_write_new_data */
    method WriteNewData(pos: nat, n: nat, bitmap: byte, limit: nat) returns (ok: bool)
      requires n <= 8 && pos + n <= |src|
      modifies this`out
      ensures var r := WriteNew(src, pos, n, bitmap, 0, |old(out)|, limit);
              ok == r.Some? && (ok ==> out == old(out) + r.value)
      ensures Grown(|old(out)|, |out|, limit)
    {
      hide Bit;
      ghost var r := WriteNew(src, pos, n, bitmap, 0, |out|, limit);
      ghost var lit: seq<byte> := [];
      if r.Some? {
        assert lit + r.value == r.value;
      }
      for i := 0 to n
        invariant out == old(out) + lit && Grown(|old(out)|, |out|, limit)
        invariant r == PrependBytes(lit, WriteNew(src, pos, n, bitmap, i, |out|, limit))
      {
        if |out| == limit {
          return false;
        }
        if Bit(bitmap, i) {
          ghost var rest := WriteNew(src, pos, n, bitmap, i + 1, |out| + 1, limit);
          if rest.Some? {
            assert lit + ([src[pos + i]] + rest.value) == (lit + [src[pos + i]]) + rest.value;
          }
          lit := lit + [src[pos + i]];
          out := out + [src[pos + i]];
        }
      }
      ok := true;
    }

    /** zbm_compress_eight_bytes */
    method CompressEightBytes(pos: nat, end: nat, limit: nat) returns (ok: bool, n: nat)
      requires pos < end <= |src| && MIN_PERIOD <= period <= Min(pos, MAX_PERIOD) && CountsUses()
      modifies this`out, this`ops, this`usecnts, this`period
      ensures n == Min(8, end - pos) && CountsUses()
      ensures var op := NewOp(src, pos, n, old(period));
              var r := WriteNew(src, pos, n, op.bmap.bitmap, 0, |old(out)|, limit);
              && ops == old(ops) + [op] && period == op.period
              && ok == r.Some? && (ok ==> out == old(out) + r.value)
      ensures Grown(|old(out)|, |out|, limit)
    {
      hide GoodPattern, CalcBitmap, WriteNew, CountsUses;
      n := Min(8, end - pos);
      var at := FindGoodPattern(src, pos, n, period);
      var bitmap := CalcBitmap(src, at, pos, n);
      AppendNewBitmap(bitmap, pos - at);
      ok := WriteNewData(pos, n, bitmap, limit);
    }

    /** The header is skipped, and zbm_build_initial_bitmap starts the first chunk. */
    method StartData(off: nat) returns (pos: nat)
      requires off == 0 ==> 8 <= |src|
      modifies this`out, this`ops, this`usecnts, this`period
      ensures CountsUses() && period == 8
      ensures off == 0 ==> pos == 8 && ops == [Op(Bmap(0xff, 0), 0)] && out == Zeros(CMP_CHUNK_HDR) + src[..8]
      ensures off > 0 ==> pos == off && ops == [] && out == Zeros(CMP_CHUNK_HDR)
    {
      hide Zeros, UseCount;
      out := Zeros(CMP_CHUNK_HDR);
      ops, usecnts := [], map[];
      pos := off;
      if off == 0 {
        ops, usecnts := [Op(Bmap(0xff, 0), 0)], map[Bmap(0xff, 0) := 1];
        out := out + src[..8];
        pos := 8;
      }
      FreshCounts(ops);
      period := 8;
    }

    /** The part of zbm_build_compressed_chunk that codes the data. Everything a
        previous chunk left in the state is cleared first. */
    method CodeData(off: nat, len: nat) returns (ok: bool)
      requires CMP_CHUNK_HDR <= len && off + len <= |src| && (off == 0 || off >= MIN_PERIOD)
      modifies this`out, this`ops, this`usecnts, this`period
      ensures CountsUses()
      ensures var r := EncodeData(src, off, len);
              ok == r.Some? && (ok ==> ops == r.value.ops && out == Zeros(CMP_CHUNK_HDR) + r.value.lits)
      ensures |out| >= CMP_CHUNK_HDR && (|out| <= len + CHUNK_HDR <==> !(off == 0 && len <= 16))
    {
      hide NewOp, WriteNew, EncodeOps, Zeros, EncodeData, UseCount;
      var limit, end := len + CHUNK_HDR, off + len;
      var pos := StartData(off);
      ghost var w0 := |out|;
      ghost var r := EncodeData(src, off, len);
      DataIsPrepend(src, off, len);
      assert out[CMP_CHUNK_HDR..] == if off == 0 then src[..8] else [];
      while pos < end
        invariant off <= pos <= end && MIN_PERIOD <= period <= Min(pos, MAX_PERIOD) && CountsUses()
        invariant |out| >= CMP_CHUNK_HDR && out[..CMP_CHUNK_HDR] == Zeros(CMP_CHUNK_HDR) && Grown(w0, |out|, limit)
        invariant r == Prepend(ops, out[CMP_CHUNK_HDR..], EncodeOps(src, end, pos, period, |out|, limit))
        decreases end - pos
      {
        ghost var before, ops1, period1 := out, ops, period;
        var n;
        ok, n := CompressEightBytes(pos, end, limit);
        ghost var op := NewOp(src, pos, n, period1);
        ghost var lit := WriteNew(src, pos, n, op.bmap.bitmap, 0, |before|, limit);
        if !ok {
          NoRoom(src, end, pos, period1, |before|, limit);
          return;
        }
        PrependStep(src, end, pos, period1, |before|, limit, ops1, before[CMP_CHUNK_HDR..], op, lit.value);
        assert out[CMP_CHUNK_HDR..] == before[CMP_CHUNK_HDR..] + lit.value;
        assert out[..CMP_CHUNK_HDR] == before[..CMP_CHUNK_HDR];
        pos := pos + n;
      }
      NothingLeft(src, end, period, |out|, limit);
      ok := true;
    }

    /** zbm_insert_in_top_bmaps, for one bitmap */
    static method InsertInTops(tops: seq<Top>, b: Bmap, usecnt: nat) returns (r: seq<Top>)
      requires |tops| <= BITMAP_COUNT
      ensures r == InsertTop(tops, b, usecnt)
    {
      ghost var slot := TopSlot(tops, b, usecnt, 0);
      var i := 0;
      while i < |tops|
        invariant 0 <= i <= |tops| && slot == TopSlot(tops, b, usecnt, i)
      {
        if tops[i].bmap == b {
          return tops;
        }
        if tops[i].usecnt < usecnt {
          break;
        }
        i := i + 1;
      }
      if i == BITMAP_COUNT {
        return tops;
      }
      var all := tops[..i] + [Top(b, usecnt)] + tops[i..];
      r := if |all| > BITMAP_COUNT then all[..BITMAP_COUNT] else all;
      assert |all| <= BITMAP_COUNT ==> all[..|all|] == all;
    }

    /** A bitmap of the chunk is marked as unused in the second metadata area
        exactly when it is among the ones of the trailer. */
    ghost predicate Marked()
      reads this`usecnts, this`found, this`ops, this`topBitmaps
    {
      && found == FindTops(ops, |ops|) && topBitmaps == TopBitmaps(found)
      && forall i | 0 <= i < |ops| :: Uses(usecnts, ops[i].bmap) == 0 <==> IsTop(found, ops[i].bmap)
    }

    /** zbm_find_most_common_bitmaps */
    method FindMostCommonBitmaps()
      requires CountsUses()
      modifies this`usecnts, this`topBitmaps, this`found
      ensures Marked()
    {
      hide InsertTop, UseCount;
      var tops := [];
      for i := 0 to |ops|
        invariant tops == FindTops(ops, i) && CountsUses()
      {
        assert Uses(usecnts, ops[i].bmap) == UseCount(ops, ops[i].bmap);
        tops := InsertInTops(tops, ops[i].bmap, Uses(usecnts, ops[i].bmap));
      }
      found := tops;
      MarkTops(tops);
      forall i | 0 <= i < |ops| ensures UseCount(ops, ops[i].bmap) > 0 {
        UsedOp(ops, i);
      }
      assert tops[..|tops|] == tops;
    }

    /** The second loop of zbm_find_most_common_bitmaps */
    method MarkTops(tops: seq<Top>)
      requires CountsUses() && |tops| <= BITMAP_COUNT
      modifies this`usecnts, this`topBitmaps
      ensures topBitmaps == TopBitmaps(tops)
      ensures forall b :: Uses(usecnts, b) == if IsTop(tops, b) then 0 else UseCount(ops, b)
    {
      hide UseCount, IsTop;
      topBitmaps := [];
      NoTops();
      for i := 0 to BITMAP_COUNT
        modifies this`usecnts, this`topBitmaps
        invariant |topBitmaps| == i
        invariant forall j | 0 <= j < i :: topBitmaps[j] == if j < |tops| then tops[j].bmap else Bmap(0, 0)
        invariant forall b :: Uses(usecnts, b) == if IsTop(tops[..Min(i, |tops|)], b) then 0 else UseCount(ops, b)
      {
        ghost var before := usecnts;
        if i >= |tops| {
          topBitmaps := topBitmaps + [Bmap(0, 0)];
        } else {
          topBitmaps := topBitmaps + [tops[i].bmap];
          usecnts := usecnts[tops[i].bmap := 0];
          MoreTops(tops, i);
          forall b
            ensures Uses(usecnts, b) == if IsTop(tops[..i + 1], b) then 0 else UseCount(ops, b)
          {
            assert Uses(before, b) == if IsTop(tops[..i], b) then 0 else UseCount(ops, b);
          }
        }
      }
      assert tops[..|tops|] == tops;
      assert topBitmaps == TopBitmaps(tops);
    }

    /** zbm_write_metadata_1 */
    method WriteMetadata1(limit: nat) returns (ok: bool)
      requires SmallCounts(ops)
      modifies this`out
      ensures ok == Fits(|old(out)|, |Meta1(ops)|, limit)
      ensures ok ==> out == old(out) + Meta1(ops)
      ensures Grown(|old(out)|, |out|, limit)
    {
      hide ToByte;
      ghost var area: seq<byte> := [];
      assert ops[0..] == ops && [] + Meta1(ops) == Meta1(ops);
      for i := 0 to |ops|
        invariant out == old(out) + area && area + Meta1(ops[i..]) == Meta1(ops)
        invariant Fits(|old(out)|, |area|, limit)
      {
        Meta1Step(ops, i, area);
        var cnt := ops[i].bmap.periodBytecnt;
        if cnt == 0 {
          assert area + OpMeta1(ops[i]) == area;
          continue;
        }
        if |out| == limit {
          return false;
        }
        out := out + [ToByte(ops[i].period % 256)];
        if cnt == 1 {
          area := area + OpMeta1(ops[i]);
          continue;
        }
        if |out| == limit {
          return false;
        }
        out := out + [ToByte(ops[i].period / 256 % 256)];
        assert out == old(out) + (area + OpMeta1(ops[i]));
        area := area + OpMeta1(ops[i]);
      }
      assert ops[|ops|..] == [] && area + [] == area;
      ok := true;
    }

    /** zbm_write_metadata_2 */
    method WriteMetadata2(limit: nat) returns (ok: bool)
      requires Marked()
      modifies this`out
      ensures ok == Fits(|old(out)|, |Meta2(ops, found)|, limit)
      ensures ok ==> out == old(out) + Meta2(ops, found)
      ensures Grown(|old(out)|, |out|, limit)
    {
      hide IsTop, FindTops, TopBitmaps, Meta2;
      ghost var area: seq<byte> := [];
      assert ops[0..] == ops && [] + Meta2(ops, found) == Meta2(ops, found);
      Meta2Nil(found);
      for i := 0 to |ops|
        invariant out == old(out) + area && area + Meta2(ops[i..], found) == Meta2(ops, found)
        invariant Fits(|old(out)|, |area|, limit)
      {
        Meta2Step(ops, found, i, area);
        if Uses(usecnts, ops[i].bmap) == 0 {
          continue;
        }
        if |out| == limit {
          return false;
        }
        out := out + [ops[i].bmap.bitmap];
        area := area + [ops[i].bmap.bitmap];
      }
      assert ops[|ops|..] == [] && area + [] == area;
      ok := true;
    }

    /** zbm_bmap_num_for_index */
    method NumForIndex(idx: nat) returns (num: byte)
      requires Marked() && SmallCounts(ops) && idx < |ops|
      ensures num == Nums(ops, found)[idx]
    {
      hide FindTops, ToByte;
      var b := ops[idx].bmap;
      if Uses(usecnts, b) == 0 {
        var i := 0;
        assert IsTop(found, b);
        assert b in topBitmaps;
        assert topBitmaps[0..] == topBitmaps;
        while i < BITMAP_COUNT
          invariant 0 <= i <= BITMAP_COUNT && b in topBitmaps[i..]
          invariant FirstIndex(topBitmaps, b) == i + FirstIndex(topBitmaps[i..], b)
        {
          if topBitmaps[i] == b {
            return ToByte(i + BITMAP_BASE);
          }
          assert topBitmaps[i..][1..] == topBitmaps[i + 1..];
          i := i + 1;
        }
      }
      num := ToByte(b.periodBytecnt);
    }

    /** zbm_bmap_num_and_repcount */
    method NumAndRepcount(idx: nat) returns (num: byte, repeat: nat)
      requires Marked() && SmallCounts(ops) && idx < |ops|
      ensures num == Nums(ops, found)[idx] && repeat == Run(Nums(ops, found)[idx..])
      ensures 1 <= repeat <= |ops| - idx
    {
      hide Nums, Run, FindTops, TopBitmaps, IsTop, NumFor;
      ghost var nums := Nums(ops, found)[idx..];
      num := NumForIndex(idx);
      repeat := 1;
      var i := idx + 1;
      while i < |ops|
        invariant i == idx + repeat <= |ops|
        invariant forall j | 0 <= j < repeat :: nums[j] == nums[0]
      {
        var next := NumForIndex(i);
        assert next == nums[repeat];
        if next != num {
          break;
        }
        repeat := repeat + 1;
        i := i + 1;
      }
      RunPrefix(nums, repeat);
    }

    /** zbm_write_metadata_3 */
    method WriteMetadata3(limit: nat) returns (ok: bool)
      requires Marked() && SmallCounts(ops)
      modifies this`out
      ensures var ns := Nibbles(Nums(ops, found));
              && ok == !(|ns| > 0 && |old(out)| + (|ns| - 1) / 2 >= limit)
              && (ok ==> out == old(out) + PackNibbles(ns))
      ensures Grown(|old(out)|, |out|, limit)
    {
      hide Nums, Run, FindTops, TopBitmaps, PackNibbles, RunNibbles, Nibbles, IsTop;
      NibblesNil();
      ghost var nums := Nums(ops, found);
      ghost var ns := Nibbles(nums);
      var w := new NibbleWriter(limit - |out|);
      var i := 0;
      assert nums[0..] == nums;
      ok := true;
      while ok && i < |ops|
        modifies w
        invariant 0 <= i <= |ops| && fresh(w) && w.Valid()
        invariant if ok then w.nibbles + Nibbles(nums[i..]) == ns else Overflows(|ns|, w.room)
        decreases |ops| - i, ok
      {
        var num, repeat := NumAndRepcount(i);
        RunStep(nums, i, w.nibbles);
        OverflowsMore(|w.nibbles| + |RunNibbles(num, repeat)|, |ns|, w.room);
        ok := w.PutRun(num, repeat);
        if ok {
          i := i + repeat;
        }
      }
      if ok {
        assert nums[i..] == [] && w.nibbles + [] == w.nibbles;
      }
      NibblesFit(w.nibbles, |out|, limit);
      out := out + w.area;
    }

    /** zbm_write_trailing_bitmaps, bit by bit into a zeroed area */
    method WriteTrailingBitmaps(limit: nat) returns (ok: bool)
      requires |topBitmaps| == BITMAP_COUNT
      modifies this`out
      ensures ok == (limit - |old(out)| >= BITMAP_BYTECNT)
      ensures ok ==> out == old(out) + WriteTrailer(topBitmaps, 120)
      ensures Grown(|old(out)|, |out|, limit)
    {
      if limit - |out| < BITMAP_BYTECNT {
        return false;
      }
      hide TrailerBit, SetBit;
      var area := Zeros(BITMAP_BYTECNT);
      for k := 0 to 120
        invariant area == WriteTrailer(topBitmaps, k)
      {
        area := WriteBit(area, k, TrailerBit(topBitmaps, k));
      }
      out := out + area;
      ok := true;
    }

    /** zbm_build_metadata */
    method WriteAreas(len: nat) returns (ok: bool)
      requires CountsUses() && SmallCounts(ops) && len <= MAX_DECMP_CHUNK_SIZE
      requires |out| >= CMP_CHUNK_HDR
      modifies this`out, this`usecnts, this`topBitmaps, this`found
      ensures var r := BuildMetadata(Coded(ops, old(out)[CMP_CHUNK_HDR..]), len);
              ok == r.Some? && (ok ==> out == r.value)
      ensures Grown(|old(out)|, |out|, len + CHUNK_HDR)
      ensures |old(out)| > len + CHUNK_HDR ==> !ok
    {
      hide FindTops, Meta1, Meta2, Nibbles, Nums, PackNibbles, WriteTrailer, TopBitmaps, ChunkHeader, UseCount, IsTop, CountsUses;
      var limit := len + CHUNK_HDR;
      ghost var lits := out[CMP_CHUNK_HDR..];
      ghost var h := out[..CMP_CHUNK_HDR];
      assert out == h + lits;
      FindMostCommonBitmaps();
      var off1 := |out|;
      var off2, off3;
      ok, off2, off3 := WriteMetadata(limit);
      if !ok {
        return;
      }
      ok := WriteTrailingBitmaps(limit);
      if !ok {
        return;
      }
      ghost var t := WriteTrailer(topBitmaps, 120);
      ghost var m1, m2, m3 := Meta1(ops), Meta2(ops, found), PackNibbles(Nibbles(Nums(ops, found)));
      assert out == h + lits + m1 + m2 + m3 + t;
      var header := ChunkHeader(|out|, len, off1, off2, off3);
      NewHeader(h, header, lits, m1, m2, m3, t);
      out := header + out[CMP_CHUNK_HDR..];
    }

    /** The three metadata areas of zbm_build_metadata. */
    method WriteMetadata(limit: nat) returns (ok: bool, off2: nat, off3: nat)
      requires Marked() && SmallCounts(ops)
      modifies this`out
      ensures var m1, m2, ns := Meta1(ops), Meta2(ops, found), Nibbles(Nums(ops, found));
              var w1 := |old(out)| + |m1|;
              var w2 := w1 + |m2|;
              && ok == (Fits(|old(out)|, |m1|, limit) && Fits(w1, |m2|, limit) && !(|ns| > 0 && w2 + (|ns| - 1) / 2 >= limit))
              && (ok ==> out == old(out) + m1 + m2 + PackNibbles(ns) && off2 == w1 && off3 == w2)
      ensures Grown(|old(out)|, |out|, limit)
    {
      hide FindTops, Meta1, Meta2, Nibbles, Nums, PackNibbles, TopBitmaps, IsTop;
      off2, off3 := 0, 0;
      ok := WriteMetadata1(limit);
      if !ok {
        return;
      }
      off2 := |out|;
      ok := WriteMetadata2(limit);
      if !ok {
        return;
      }
      off3 := |out|;
      ok := WriteMetadata3(limit);
    }

    /** zbm_compress_single_chunk, with zbm_build_compressed_chunk and its
        fallback zbm_build_uncompressed_chunk */
    method CompressSingleChunk(off: nat, destLeft: nat) returns (r: Result<nat>)
      requires ChunkStart(src, off)
      modifies this
      ensures var len := ChunkLen(src, off);
              && (r.Ok? <==> len + CHUNK_HDR <= destLeft)
              && (r.Err? ==> r.error == Range)
              && (r.Ok? ==> r.value == len && out == EncodeChunk(src, off))
      ensures var len := ChunkLen(src, off);
              r.Ok? ==>
                && |out| <= peak && |out| <= len + CHUNK_HDR
                && (peak <= len + CHUNK_HDR <==> !(off == 0 && 15 <= len <= 16))
    {
      hide EncodeData, BuildMetadata, U24, UseCount;
      var len := ChunkLen(src, off);
      if len + CHUNK_HDR > destLeft {
        return Err(Range);
      }
      LongPrefix(src, off);
      var ok := false;
      peak := len + CHUNK_HDR;
      if len >= CMP_CHUNK_HDR {
        ok := CodeData(off, len);
        if ok {
          assert out[CMP_CHUNK_HDR..] == EncodeData(src, off, len).value.lits;
          ok := WriteAreas(len);
        }
        peak := if |out| < len + CHUNK_HDR then len + CHUNK_HDR else |out|;
      }
      if !ok {
        out := U24(len + CHUNK_HDR) + U24(len) + src[off..off + len];
      }
      r := Ok(len);
    }
  }

  lemma Meta2Nil(tops: seq<Top>)
    ensures Meta2([], tops) == []
  {
  }

  lemma Meta2Step(ops: seq<Op>, tops: seq<Top>, i: nat, area: seq<byte>)
    requires i < |ops|
    ensures var b := if IsTop(tops, ops[i].bmap) then [] else [ops[i].bmap.bitmap];
            && area + Meta2(ops[i..], tops) == (area + b) + Meta2(ops[i + 1..], tops)
            && |Meta2(ops[i..], tops)| == |b| + |Meta2(ops[i + 1..], tops)|
            && (b == [] ==> area + b == area)
  {
    hide IsTop;
    var b := if IsTop(tops, ops[i].bmap) then [] else [ops[i].bmap.bitmap];
    assert ops[i..][1..] == ops[i + 1..];
    assert area + (b + Meta2(ops[i + 1..], tops)) == (area + b) + Meta2(ops[i + 1..], tops);
  }

  lemma RunStep(nums: seq<byte>, i: nat, before: seq<byte>)
    requires i < |nums| && forall j | 0 <= j < |nums| :: nums[j] < 15
    ensures var run := Run(nums[i..]);
            && before + Nibbles(nums[i..]) == (before + RunNibbles(nums[i], run)) + Nibbles(nums[i + run..])
            && |before + Nibbles(nums[i..])| >= |before| + |RunNibbles(nums[i], run)|
  {
    hide RunNibbles, Run;
    var run := Run(nums[i..]);
    assert nums[i..][run..] == nums[i + run..];
    var a, b := RunNibbles(nums[i], run), Nibbles(nums[i + run..]);
    assert before + (a + b) == (before + a) + b;
  }

  lemma NibblesNil()
    ensures Nibbles([]) == []
  {
  }

  lemma NewHeader(h: seq<byte>, header: seq<byte>, lits: seq<byte>, m1: seq<byte>, m2: seq<byte>, m3: seq<byte>, t: seq<byte>)
    requires |h| == |header| == CMP_CHUNK_HDR
    ensures header + (h + lits + m1 + m2 + m3 + t)[CMP_CHUNK_HDR..] == header + lits + m1 + m2 + m3 + t
  {
    assert (h + lits + m1 + m2 + m3 + t)[CMP_CHUNK_HDR..] == lits + m1 + m2 + m3 + t;
  }

  lemma LongPrefix(src: seq<byte>, off: nat)
    requires ChunkStart(src, off)
    ensures off == 0 || off >= MIN_PERIOD || ChunkLen(src, off) == 0
  {
  }

  lemma NoTops()
    ensures forall b :: !IsTop([], b)
  {
  }

  lemma MoreTops(tops: seq<Top>, i: nat)
    requires i < |tops|
    ensures forall b :: IsTop(tops[..i + 1], b) <==> IsTop(tops[..i], b) || b == tops[i].bmap
  {
    forall b
      ensures IsTop(tops[..i + 1], b) <==> IsTop(tops[..i], b) || b == tops[i].bmap
    {
      var more, less := tops[..i + 1], tops[..i];
      assert forall j | 0 <= j < i :: more[j] == less[j];
      assert more[i] == tops[i];
    }
  }

  lemma Meta1Step(ops: seq<Op>, i: nat, area: seq<byte>)
    requires i < |ops|
    ensures area + Meta1(ops[i..]) == (area + OpMeta1(ops[i])) + Meta1(ops[i + 1..])
    ensures |Meta1(ops[i..])| == |OpMeta1(ops[i])| + |Meta1(ops[i + 1..])|
  {
    hide OpMeta1;
    assert ops[i..][1..] == ops[i + 1..];
    assert area + (OpMeta1(ops[i]) + Meta1(ops[i + 1..])) == (area + OpMeta1(ops[i])) + Meta1(ops[i + 1..]);
  }

  lemma FreshCounts(ops: seq<Op>)
    requires ops == [] || ops == [Op(Bmap(0xff, 0), 0)]
    ensures forall b :: UseCount(ops, b) == if ops != [] && b == Bmap(0xff, 0) then 1 else 0
  {
  }

  lemma DataIsPrepend(src: seq<byte>, off: nat, len: nat)
    requires CMP_CHUNK_HDR <= len && off + len <= |src| && (off == 0 || off >= MIN_PERIOD)
    ensures EncodeData(src, off, len)
            == if off == 0
               then Prepend([Op(Bmap(0xff, 0), 0)], src[..8], EncodeOps(src, len, 8, 8, CMP_CHUNK_HDR + 8, len + CHUNK_HDR))
               else Prepend([], [], EncodeOps(src, off + len, off, 8, CMP_CHUNK_HDR, len + CHUNK_HDR))
  {
    hide EncodeOps;
    if off > 0 {
      var r := EncodeOps(src, off + len, off, 8, CMP_CHUNK_HDR, len + CHUNK_HDR);
      if r.Some? {
        assert [] + r.value.ops == r.value.ops && [] + r.value.lits == r.value.lits;
      }
    }
  }

  lemma NoRoom(src: seq<byte>, end: nat, pos: nat, period: nat, w: nat, limit: nat)
    requires pos < end <= |src| && MIN_PERIOD <= period <= Min(pos, MAX_PERIOD)
    requires var n := Min(8, end - pos);
             WriteNew(src, pos, n, NewOp(src, pos, n, period).bmap.bitmap, 0, w, limit).None?
    ensures EncodeOps(src, end, pos, period, w, limit).None?
  {
    hide NewOp, WriteNew;
  }

  lemma NothingLeft(src: seq<byte>, end: nat, period: nat, w: nat, limit: nat)
    requires end <= |src| && MIN_PERIOD <= period <= Min(end, MAX_PERIOD)
    ensures EncodeOps(src, end, end, period, w, limit) == Some(Coded([], []))
  {
  }

  // ----- zbm_compress and zbm_compress_chunk

  /** Whether every chunk from off on gets its worst case in what is left. */
  ghost predicate Room(src: seq<byte>, off: nat, destLeft: int)
    requires ChunkStart(src, off)
    decreases |src| - off
  {
    NextStart(src, off);
    && ChunkLen(src, off) + CHUNK_HDR <= destLeft
    && (off < |src| ==> Room(src, off + ChunkLen(src, off), destLeft - |EncodeChunk(src, off)|))
  }

  /** `peak` is the end of the furthest byte ever written to the destination. */
  method CompressAll(src: seq<byte>, destSize: nat) returns (r: Result<seq<byte>>, ghost peak: nat)
    ensures r.Ok? <==> 4 <= destSize && Room(src, 0, destSize - 4)
    ensures r.Err? ==> r.error == if destSize < 4 then Inval else Range
    ensures r.Ok? ==> r.value == Compress(src)
    ensures !(15 <= |src| <= 16) ==> peak <= destSize
  {
    hide EncodeChunk;
    peak := 0;
    if destSize < 4 {
      return Err(Inval), peak;
    }
    peak := 4;
    var state := new Encoder(src);
    var dest := MAGIC;
    var off: nat, more := 0, true;
    while more
      modifies state
      invariant fresh(state) && state.src == src && ChunkStart(src, off) && |dest| >= 4
      invariant !(15 <= |src| <= 16) ==> peak <= destSize
      invariant more ==> dest + EncodeChunks(src, off) == Compress(src)
      invariant more ==> (Room(src, 0, destSize - 4) <==> Room(src, off, destSize - |dest|))
      invariant !more ==> dest == Compress(src) && Room(src, 0, destSize - 4)
      decreases more, |src| - off
    {
      if |dest| > destSize {
        return Err(Range), peak;
      }
      var read := state.CompressSingleChunk(off, destSize - |dest|);
      if read.Err? {
        return Err(Range), peak;
      }
      if peak < |dest| + state.peak {
        peak := |dest| + state.peak;
      }
      ghost var c := EncodeChunk(src, off);
      NextStart(src, off);
      if off < |src| {
        assert dest + (c + EncodeChunks(src, off + read.value)) == (dest + c) + EncodeChunks(src, off + read.value);
      }
      dest := dest + state.out;
      off := off + read.value;
      more := read.value != 0;
    }
    r := Ok(dest);
  }

  /** The offset of a chunk by its index; past the end all chunks are empty. */
  function ChunkOffset(src: seq<byte>, index: nat): (off: nat)
    ensures ChunkStart(src, off)
  {
    var off := index * MAX_DECMP_CHUNK_SIZE;
    if |src| < off then |src| else off
  }

  /** What zbm_compress_chunk writes for one index. */
  function ChunkOutput(src: seq<byte>, index: nat): (s: seq<byte>)
  {
    (if index == 0 then MAGIC else []) + EncodeChunk(src, ChunkOffset(src, index))
  }

  /** The index must not overflow when it is turned into an offset of 64 bits. */
  method CompressChunk(src: seq<byte>, index: nat, destSize: nat) returns (r: Result<seq<byte>>, ghost peak: nat)
    requires index < 0x1_0000_0000_0000_0000
    ensures r.Ok? <==>
              && (index == 0 ==> destSize >= 4)
              && index * MAX_DECMP_CHUNK_SIZE < 0x1_0000_0000_0000_0000
              && ChunkLen(src, ChunkOffset(src, index)) + CHUNK_HDR <= destSize - (if index == 0 then 4 else 0)
    ensures r.Ok? ==> r.value == ChunkOutput(src, index)
    ensures !(index == 0 && 15 <= |src| <= 16) ==> peak <= destSize
  {
    hide EncodeChunk;
    peak := 0;
    var state := new Encoder(src);
    var dest := [];
    if index == 0 {
      if destSize < 4 {
        return Err(Inval), peak;
      }
      dest := MAGIC;
      peak := 4;
    }
    var off := index * MAX_DECMP_CHUNK_SIZE % 0x1_0000_0000_0000_0000;
    if off / MAX_DECMP_CHUNK_SIZE != index {
      return Err(Overflow), peak;
    }
    if |src| < off {
      off := |src|;
    }
    var read := state.CompressSingleChunk(off, destSize - |dest|);
    if read.Err? {
      return Err(read.error), peak;
    }
    peak := |dest| + state.peak;
    r := Ok(dest + state.out);
  }

  /** The chunks with indices from `index` to the last one, in order. */
  ghost function Concatenated(src: seq<byte>, index: nat): (s: seq<byte>)
    requires index * MAX_DECMP_CHUNK_SIZE <= |src| + MAX_DECMP_CHUNK_SIZE - 1
    decreases |src| + MAX_DECMP_CHUNK_SIZE - index * MAX_DECMP_CHUNK_SIZE
  {
    if index * MAX_DECMP_CHUNK_SIZE >= |src| then ChunkOutput(src, index)
    else ChunkOutput(src, index) + Concatenated(src, index + 1)
  }

  lemma {:induction false} ConcatenatedFrom(src: seq<byte>, index: nat)
    requires index > 0 && index * MAX_DECMP_CHUNK_SIZE <= |src| + MAX_DECMP_CHUNK_SIZE - 1
    ensures Concatenated(src, index) == EncodeChunks(src, ChunkOffset(src, index))
    decreases |src| + MAX_DECMP_CHUNK_SIZE - index * MAX_DECMP_CHUNK_SIZE
  {
    hide EncodeChunk;
    var off := ChunkOffset(src, index);
    assert ChunkOutput(src, index) == EncodeChunk(src, off);
    if off < |src| {
      ConcatenatedFrom(src, index + 1);
      assert ChunkOffset(src, index + 1) == off + ChunkLen(src, off);
    }
  }

  /** Compressing the chunks one by one, each from a fresh state, and joining
      the results gives byte for byte what compressing the buffer in one go
      gives: nothing leaks from one chunk to the next. */
  lemma ChunksAreIndependent(src: seq<byte>)
    ensures Concatenated(src, 0) == Compress(src)
  {
    hide EncodeChunk;
    if |src| > 0 {
      ConcatenatedFrom(src, 1);
      assert ChunkOffset(src, 1) == ChunkLen(src, 0);
      var c, rest := EncodeChunk(src, 0), EncodeChunks(src, ChunkLen(src, 0));
      assert (MAGIC + c) + rest == MAGIC + (c + rest);
    }
  }
}
