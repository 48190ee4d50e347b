/** The decoder undoes the encoder. The proof goes through a notion of valid
    operations that does not mention how the encoder looks for patterns: any
    list of operations that describes the data decodes to the data. */
module ZbmRoundTrip {
  import opened Prelude
  import opened ZbmFormat
  import D = ZbmDecode
  import E = ZbmEncode

  // ----- Operations that describe a stretch of data

  function NextPeriod(period: nat, op: E.Op): nat
  {
    if op.bmap.periodBytecnt == 0 then period else op.period
  }

  /** Every byte that the bitmap does not list as a literal is one period back. */
  ghost predicate Copies(src: seq<byte>, pos: nat, n: nat, bitmap: byte, period: nat)
    requires n <= 8 && pos + n <= |src| && period > 0
  {
    forall i: nat | i < n && !Bit(bitmap, i) :: period <= pos + i && src[pos + i - period] == src[pos + i]
  }

  lemma CopiesAt(src: seq<byte>, pos: nat, n: nat, bitmap: byte, period: nat, i: nat)
    requires n <= 8 && pos + n <= |src| && period > 0
    requires Copies(src, pos, n, bitmap, period) && i < n && !Bit(bitmap, i)
    ensures period <= pos + i && src[pos + i - period] == src[pos + i]
  {
  }

  ghost predicate ValidOp(src: seq<byte>, pos: nat, n: nat, period: nat, op: E.Op)
    requires n <= 8 && pos + n <= |src|
  {
    var p := NextPeriod(period, op);
    && op.bmap.periodBytecnt <= MAX_PERIOD_BYTECNT
    && 0 < p <= 0xffff
    && (op.bmap.periodBytecnt == 1 ==> p <= 0xff)
    && Copies(src, pos, n, op.bmap.bitmap, p)
  }

  ghost predicate ValidOps(src: seq<byte>, pos: nat, end: nat, period: nat, ops: seq<E.Op>)
    requires pos <= end <= |src|
    decreases end - pos
  {
    if pos == end then ops == []
    else
      var n := Min(8, end - pos);
      && ops != []
      && ValidOp(src, pos, n, period, ops[0])
      && ValidOps(src, pos + n, end, NextPeriod(period, ops[0]), ops[1..])
  }

  ghost function OpLits(src: seq<byte>, pos: nat, n: nat, bitmap: byte, i: nat): (s: seq<byte>)
    requires i <= n <= 8 && pos + n <= |src|
    decreases n - i
  {
    if i == n then []
    else (if Bit(bitmap, i) then [src[pos + i]] else []) + OpLits(src, pos, n, bitmap, i + 1)
  }

  ghost function Lits(src: seq<byte>, pos: nat, end: nat, ops: seq<E.Op>): (s: seq<byte>)
    requires pos <= end <= |src|
    decreases end - pos
  {
    if pos == end || ops == [] then []
    else
      var n := Min(8, end - pos);
      OpLits(src, pos, n, ops[0].bmap.bitmap, 0) + Lits(src, pos + n, end, ops[1..])
  }

  // ----- What the encoder writes is valid

  lemma {:induction false} WriteNewLits(src: seq<byte>, pos: nat, n: nat, bitmap: byte, i: nat, w: nat, limit: nat)
    requires i <= n <= 8 && pos + n <= |src|
    ensures E.WriteNew(src, pos, n, bitmap, i, w, limit).Some? ==>
              E.WriteNew(src, pos, n, bitmap, i, w, limit).value == OpLits(src, pos, n, bitmap, i)
    decreases n - i
  {
    if i < n && w != limit {
      WriteNewLits(src, pos, n, bitmap, i + 1, if Bit(bitmap, i) then w + 1 else w, limit);
    }
  }

  lemma NewOpValid(src: seq<byte>, pos: nat, n: nat, period: nat)
    requires 0 < n <= 8 && pos + n <= |src| && E.MIN_PERIOD <= period <= Min(pos, E.MAX_PERIOD)
    ensures ValidOp(src, pos, n, period, E.NewOp(src, pos, n, period))
    ensures NextPeriod(period, E.NewOp(src, pos, n, period)) == E.NewOp(src, pos, n, period).period
  {
    hide E.GoodPattern, Bit;
    var at := E.GoodPattern(src, pos, n, period);
    var op := E.NewOp(src, pos, n, period);
    assert pos - op.period == at;
    forall i: nat | i < n && !Bit(op.bmap.bitmap, i)
      ensures src[pos + i - op.period] == src[pos + i]
    {
      assert Bit(E.CalcBitmap(src, at, pos, n), i) == (src[at + i] != src[pos + i]);
    }
  }

  lemma {:induction false} EncodeOpsValid(src: seq<byte>, end: nat, pos: nat, period: nat, w: nat, limit: nat)
    requires pos <= end <= |src| && E.MIN_PERIOD <= period <= Min(pos, E.MAX_PERIOD)
    ensures var r := E.EncodeOps(src, end, pos, period, w, limit);
            r.Some? ==> ValidOps(src, pos, end, period, r.value.ops) && r.value.lits == Lits(src, pos, end, r.value.ops)
    decreases end - pos
  {
    hide E.NewOp, E.WriteNew, ValidOp, OpLits;
    var r := E.EncodeOps(src, end, pos, period, w, limit);
    if pos < end && r.Some? {
      var n := Min(8, end - pos);
      var op := E.NewOp(src, pos, n, period);
      var lit := E.WriteNew(src, pos, n, op.bmap.bitmap, 0, w, limit);
      NewOpValid(src, pos, n, period);
      WriteNewLits(src, pos, n, op.bmap.bitmap, 0, w, limit);
      EncodeOpsValid(src, end, pos + n, op.period, w + |lit.value|, limit);
      assert r.value.ops[1..] == E.EncodeOps(src, end, pos + n, op.period, w + |lit.value|, limit).value.ops;
    }
  }

  lemma AllLits(src: seq<byte>, i: nat)
    requires i <= 8 <= |src|
    ensures OpLits(src, 0, 8, 0xff, i) == src[i..8]
    decreases 8 - i
  {
    if i < 8 {
      AllOnes(i);
      AllLits(src, i + 1);
    }
  }

  lemma AllOnes(i: nat)
    requires i < 8
    ensures Bit(0xff, i)
  {
  }

  lemma InitialOpValid(src: seq<byte>, end: nat, ops: seq<E.Op>)
    requires 8 <= end <= |src| && ValidOps(src, 8, end, 8, ops)
    ensures ValidOps(src, 0, end, 8, [E.Op(Bmap(0xff, 0), 0)] + ops)
    ensures Lits(src, 0, end, [E.Op(Bmap(0xff, 0), 0)] + ops) == src[..8] + Lits(src, 8, end, ops)
  {
    hide Bit;
    var all := [E.Op(Bmap(0xff, 0), 0)] + ops;
    assert all[1..] == ops;
    AllLits(src, 0);
    forall i: nat | i < 8 ensures Bit(0xff, i) { AllOnes(i); }
  }

  lemma EncodeDataValid(src: seq<byte>, off: nat, len: nat)
    requires CMP_CHUNK_HDR <= len && off + len <= |src| && (off == 0 || off >= E.MIN_PERIOD)
    ensures var r := E.EncodeData(src, off, len);
            r.Some? ==> ValidOps(src, off, off + len, 8, r.value.ops) && r.value.lits == Lits(src, off, off + len, r.value.ops)
  {
    hide E.EncodeOps, ValidOps, Lits;
    if off == 0 {
      var rest := E.EncodeOps(src, len, 8, 8, CMP_CHUNK_HDR + 8, len + CHUNK_HDR);
      EncodeOpsValid(src, len, 8, 8, CMP_CHUNK_HDR + 8, len + CHUNK_HDR);
      if rest.Some? {
        InitialOpValid(src, len, rest.value.ops);
      }
    } else {
      EncodeOpsValid(src, off + len, off, 8, CMP_CHUNK_HDR, len + CHUNK_HDR);
    }
  }

  // ----- One operation

  ghost predicate Stream(c: seq<byte>, at: nat, s: seq<byte>)
  {
    at + |s| <= |c| && c[at..at + |s|] == s
  }

  lemma StreamSplit(c: seq<byte>, at: nat, s: seq<byte>, t: seq<byte>)
    requires Stream(c, at, s + t)
    ensures Stream(c, at, s) && Stream(c, at + |s|, t)
  {
    assert c[at..at + |s|] == c[at..at + |s + t|][..|s|];
    assert c[at + |s|..at + |s| + |t|] == c[at..at + |s + t|][|s|..];
  }

  lemma StreamHead(c: seq<byte>, at: nat, s: seq<byte>)
    requires Stream(c, at, s) && s != []
    ensures at < |c| && c[at] == s[0] && Stream(c, at + 1, s[1..])
  {
    assert [s[0]] + s[1..] == s;
    StreamSplit(c, at, [s[0]], s[1..]);
    assert c[at..at + 1] == [s[0]];
  }

  lemma NoLits(src: seq<byte>, pos: nat, n: nat, bitmap: byte)
    requires n <= 8 && pos + n <= |src|
    ensures OpLits(src, pos, n, bitmap, n) == []
  {
  }

  lemma LiteralHead(c: seq<byte>, data: nat, src: seq<byte>, pos: nat, n: nat, bitmap: byte, i: nat)
    requires i < n <= 8 && pos + n <= |src| && Bit(bitmap, i)
    requires Stream(c, data, OpLits(src, pos, n, bitmap, i))
    ensures data < |c| && c[data] == src[pos + i]
    ensures Stream(c, data + 1, OpLits(src, pos, n, bitmap, i + 1))
    ensures |OpLits(src, pos, n, bitmap, i)| == 1 + |OpLits(src, pos, n, bitmap, i + 1)|
  {
    hide Bit, Stream;
    StreamHead(c, data, OpLits(src, pos, n, bitmap, i));
    assert OpLits(src, pos, n, bitmap, i)[1..] == OpLits(src, pos, n, bitmap, i + 1);
  }

  lemma CopyHead(src: seq<byte>, pos: nat, n: nat, bitmap: byte, i: nat)
    requires i < n <= 8 && pos + n <= |src| && !Bit(bitmap, i)
    ensures OpLits(src, pos, n, bitmap, i) == OpLits(src, pos, n, bitmap, i + 1)
  {
    hide Bit;
    assert OpLits(src, pos, n, bitmap, i) == [] + OpLits(src, pos, n, bitmap, i + 1);
  }

  lemma {:induction false} ApplyBitsDecodes(c: seq<byte>, data: nat, period: nat, src: seq<byte>, pos: nat, n: nat, bitmap: byte, i: nat)
    requires i <= n <= 8 && pos + n <= |src| && period > 0
    requires Copies(src, pos, n, bitmap, period)
    requires Stream(c, data, OpLits(src, pos, n, bitmap, i))
    ensures D.ApplyBits(c, D.Copied(src[..pos + i], data), period, bitmap, i, n)
            == Ok(D.Copied(src[..pos + n], data + |OpLits(src, pos, n, bitmap, i)|))
    decreases n - i
  {
    hide Bit, Copies, Stream, OpLits, D.ApplyBits;
    if i == n {
      D.ApplyNothing(c, src[..pos + n], data, period, bitmap, n);
      NoLits(src, pos, n, bitmap);
    } else {
      assert src[..pos + i] + [src[pos + i]] == src[..pos + i + 1];
      if Bit(bitmap, i) {
        LiteralHead(c, data, src, pos, n, bitmap, i);
        D.ApplyLiteral(c, src[..pos + i], data, period, bitmap, i, n);
        ApplyBitsDecodes(c, data + 1, period, src, pos, n, bitmap, i + 1);
      } else {
        CopiesAt(src, pos, n, bitmap, period, i);
        CopyHead(src, pos, n, bitmap, i);
        D.ApplyCopy(c, src[..pos + i], data, period, bitmap, i, n);
        ApplyBitsDecodes(c, data, period, src, pos, n, bitmap, i + 1);
      }
    }
  }

  /** The decoder has produced src up to pos and the rest of its input areas
      holds the operations that are left. */
  ghost predicate Synced(c: seq<byte>, s: D.State, src: seq<byte>, off: nat, pos: nat, end: nat, ops: seq<E.Op>, tops: seq<E.Top>)
    requires off <= pos <= end <= |src|
  {
    && s.out == src[..pos]
    && s.written == pos - off
    && ValidOps(src, pos, end, s.period, ops)
    && Stream(c, s.data, Lits(src, pos, end, ops))
    && Stream(c, s.meta1, E.Meta1(ops))
    && Stream(c, s.meta2, E.Meta2(ops, tops))
  }

  lemma PeriodDigits(p: nat)
    requires p <= 0xffff
    ensures p == p % 256 + 256 * (p / 256 % 256)
  {
  }

  lemma ReadPeriodDecodes(c: seq<byte>, s: D.State, op: E.Op)
    requires op.bmap.periodBytecnt <= MAX_PERIOD_BYTECNT && Stream(c, s.meta1, E.OpMeta1(op))
    requires op.bmap.periodBytecnt == 1 ==> op.period <= 0xff
    requires op.bmap.periodBytecnt == 2 ==> op.period <= 0xffff
    ensures D.ReadPeriod(c, s, op.bmap.periodBytecnt)
            == Ok(s.(period := NextPeriod(s.period, op), meta1 := s.meta1 + |E.OpMeta1(op)|))
  {
    hide Stream, ByteVal, ToByte;
    if op.bmap.periodBytecnt == 1 {
      StreamHead(c, s.meta1, E.OpMeta1(op));
      ByteRoundTrip(op.period % 256);
    } else if op.bmap.periodBytecnt == 2 {
      StreamHead(c, s.meta1, E.OpMeta1(op));
      StreamHead(c, s.meta1 + 1, E.OpMeta1(op)[1..]);
      ByteRoundTrip(op.period % 256);
      ByteRoundTrip(op.period / 256 % 256);
      PeriodDigits(op.period);
    }
  }

  /** The state after one operation. */
  ghost function After(s: D.State, src: seq<byte>, pos: nat, n: nat, op: E.Op): D.State
    requires n <= 8 && pos + n <= |src|
  {
    D.State(src[..pos + n], s.written + n, NextPeriod(s.period, op), s.data + |OpLits(src, pos, n, op.bmap.bitmap, 0)|,
            s.meta1 + |E.OpMeta1(op)|, s.meta2, s.nibble)
  }

  lemma ApplyOpDecodes(c: seq<byte>, s: D.State, src: seq<byte>, pos: nat, n: nat, op: E.Op, decmpLen: nat)
    requires n <= 8 && pos + n <= |src| && s.out == src[..pos] && ValidOp(src, pos, n, s.period, op)
    requires s.written <= decmpLen && n == Min(8, decmpLen - s.written)
    requires Stream(c, s.data, OpLits(src, pos, n, op.bmap.bitmap, 0)) && Stream(c, s.meta1, E.OpMeta1(op))
    ensures D.ApplyBitmap(c, s, op.bmap, decmpLen) == Ok(After(s, src, pos, n, op))
  {
    hide Bit, Copies, OpLits, D.ApplyBits, D.ReadPeriod, E.OpMeta1, Stream;
    ReadPeriodDecodes(c, s, op);
    ApplyBitsDecodes(c, s.data, NextPeriod(s.period, op), src, pos, n, op.bmap.bitmap, 0);
  }

  lemma OpStreams(c: seq<byte>, s: D.State, src: seq<byte>, pos: nat, end: nat, ops: seq<E.Op>)
    requires pos < end <= |src| && ops != []
    requires Stream(c, s.data, Lits(src, pos, end, ops)) && Stream(c, s.meta1, E.Meta1(ops))
    ensures var n := Min(8, end - pos);
            var lits := OpLits(src, pos, n, ops[0].bmap.bitmap, 0);
            && Stream(c, s.data, lits) && Stream(c, s.data + |lits|, Lits(src, pos + n, end, ops[1..]))
            && Stream(c, s.meta1, E.OpMeta1(ops[0])) && Stream(c, s.meta1 + |E.OpMeta1(ops[0])|, E.Meta1(ops[1..]))
  {
    hide Stream, OpLits, E.OpMeta1;
    var n := Min(8, end - pos);
    StreamSplit(c, s.meta1, E.OpMeta1(ops[0]), E.Meta1(ops[1..]));
    StreamSplit(c, s.data, OpLits(src, pos, n, ops[0].bmap.bitmap, 0), Lits(src, pos + n, end, ops[1..]));
  }

  lemma ApplyBitmapDecodes(c: seq<byte>, s: D.State, src: seq<byte>, off: nat, pos: nat, end: nat, ops: seq<E.Op>, tops: seq<E.Top>)
    requires off <= pos < end <= |src| && ops != []
    requires s.out == src[..pos] && s.written == pos - off
    requires ValidOps(src, pos, end, s.period, ops)
    requires Stream(c, s.data, Lits(src, pos, end, ops)) && Stream(c, s.meta1, E.Meta1(ops))
    requires Stream(c, s.meta2, E.Meta2(ops[1..], tops))
    ensures var r := D.ApplyBitmap(c, s, ops[0].bmap, end - off);
            && r.Ok? && r.value.nibble == s.nibble
            && Synced(c, r.value, src, off, pos + Min(8, end - pos), end, ops[1..], tops)
  {
    hide Copies, OpLits, D.ApplyBitmap, E.Meta1, E.Meta2, E.OpMeta1, Stream, Lits;
    OpStreams(c, s, src, pos, end, ops);
    ApplyOpDecodes(c, s, src, pos, Min(8, end - pos), ops[0], end - off);
  }

  lemma TopNumber(tops: seq<E.Top>, b: Bmap)
    requires |tops| <= BITMAP_COUNT && b.periodBytecnt <= MAX_PERIOD_BYTECNT && E.IsTop(tops, b)
    ensures var num := ByteVal(E.NumFor(tops, b));
            BITMAP_BASE <= num < BITMAP_BASE + BITMAP_COUNT && E.TopBitmaps(tops)[num - BITMAP_BASE] == b
  {
    var i :| 0 <= i < |tops| && tops[i].bmap == b;
    assert E.TopBitmaps(tops)[i] == b;
    ByteRoundTrip(E.FirstIndex(E.TopBitmaps(tops), b) + BITMAP_BASE);
  }

  ghost predicate GoodTops(tops: seq<E.Top>)
  {
    |tops| <= BITMAP_COUNT && forall i | 0 <= i < |tops| :: tops[i].bmap.periodBytecnt <= MAX_PERIOD_BYTECNT
  }

  lemma GoodTopsValid(tops: seq<E.Top>)
    requires GoodTops(tops)
    ensures D.ValidTops(E.TopBitmaps(tops))
  {
  }

  lemma TopApplies(c: seq<byte>, s: D.State, tops: seq<E.Top>, b: Bmap, decmpLen: nat)
    requires GoodTops(tops) && b.periodBytecnt <= MAX_PERIOD_BYTECNT && s.written <= decmpLen && E.IsTop(tops, b)
    ensures D.ValidTops(E.TopBitmaps(tops))
    ensures D.ApplyNumber(c, E.TopBitmaps(tops), s, E.NumFor(tops, b), decmpLen) == D.ApplyBitmap(c, s, b, decmpLen)
  {
    hide D.ApplyBitmap, D.ValidTops;
    GoodTopsValid(tops);
    TopNumber(tops, b);
  }

  lemma ListedApplies(c: seq<byte>, s: D.State, tops: seq<E.Top>, b: Bmap, decmpLen: nat)
    requires GoodTops(tops) && b.periodBytecnt <= MAX_PERIOD_BYTECNT && s.written <= decmpLen && !E.IsTop(tops, b)
    requires s.meta2 < |c| && c[s.meta2] == b.bitmap
    ensures D.ValidTops(E.TopBitmaps(tops))
    ensures D.ApplyNumber(c, E.TopBitmaps(tops), s, E.NumFor(tops, b), decmpLen)
            == D.ApplyBitmap(c, s.(meta2 := s.meta2 + 1), b, decmpLen)
  {
    hide D.ApplyBitmap, D.ValidTops;
    GoodTopsValid(tops);
    ByteRoundTrip(b.periodBytecnt);
  }

  lemma ApplyNumberDecodes(c: seq<byte>, s: D.State, src: seq<byte>, off: nat, pos: nat, end: nat, ops: seq<E.Op>, tops: seq<E.Top>)
    requires off <= pos < end <= |src| && ops != [] && GoodTops(tops)
    requires Synced(c, s, src, off, pos, end, ops, tops)
    ensures D.ValidTops(E.TopBitmaps(tops))
    ensures ops[0].bmap.periodBytecnt <= MAX_PERIOD_BYTECNT
    ensures var r := D.ApplyNumber(c, E.TopBitmaps(tops), s, E.NumFor(tops, ops[0].bmap), end - off);
            && r.Ok? && r.value.nibble == s.nibble
            && Synced(c, r.value, src, off, pos + Min(8, end - pos), end, ops[1..], tops)
  {
    hide D.ApplyNumber, D.ApplyBitmap, ValidOps, Lits, E.Meta1, E.TopBitmaps, D.ValidTops, E.NumFor, E.IsTop, Stream, GoodTops;
    GoodTopsValid(tops);
    OpsCount(src, pos, end, s.period, ops);
    var b := ops[0].bmap;
    if E.IsTop(tops, b) {
      TopApplies(c, s, tops, b, end - off);
      assert E.Meta2(ops, tops) == E.Meta2(ops[1..], tops);
      ApplyBitmapDecodes(c, s, src, off, pos, end, ops, tops);
    } else {
      assert E.Meta2(ops, tops) == [b.bitmap] + E.Meta2(ops[1..], tops);
      StreamHead(c, s.meta2, E.Meta2(ops, tops));
      assert E.Meta2(ops, tops)[1..] == E.Meta2(ops[1..], tops);
      ListedApplies(c, s, tops, b, end - off);
      ApplyBitmapDecodes(c, s.(meta2 := s.meta2 + 1), src, off, pos, end, ops, tops);
    }
  }

  lemma {:induction false} OpsCount(src: seq<byte>, pos: nat, end: nat, period: nat, ops: seq<E.Op>)
    requires pos <= end <= |src| && ValidOps(src, pos, end, period, ops)
    ensures |ops| == (end - pos + 7) / 8 && E.SmallCounts(ops)
    decreases end - pos
  {
    hide Copies;
    if pos < end {
      OpsCount(src, pos + Min(8, end - pos), end, NextPeriod(period, ops[0]), ops[1..]);
    }
  }

  // ----- A run of equal numbers

  lemma {:induction false} ApplyRepeatedDecodes(c: seq<byte>, s: D.State, src: seq<byte>, off: nat, pos: nat, end: nat, ops: seq<E.Op>, tops: seq<E.Top>, num: byte, k: nat)
    requires off <= pos <= end <= |src| && k <= |ops| && GoodTops(tops) && E.SmallCounts(ops) && num < 15
    requires Synced(c, s, src, off, pos, end, ops, tops)
    requires forall i | 0 <= i < k :: E.NumFor(tops, ops[i].bmap) == num
    ensures D.ValidTops(E.TopBitmaps(tops))
    ensures var r := D.ApplyRepeated(c, E.TopBitmaps(tops), s, num, k, end - off);
            && r.Ok? && r.value.nibble == s.nibble
            && Synced(c, r.value, src, off, Min(pos + 8 * k, end), end, ops[k..], tops)
    decreases k
  {
    hide ValidOp, Lits, E.Meta1, E.Meta2, E.TopBitmaps, E.NumFor, Stream, D.ApplyNumber, D.ValidTops;
    GoodTopsValid(tops);
    if k > 0 {
      OpsCount(src, pos, end, s.period, ops);
      ApplyNumberDecodes(c, s, src, off, pos, end, ops, tops);
      var t := D.ApplyNumber(c, E.TopBitmaps(tops), s, num, end - off).value;
      assert ops[1..][k - 1..] == ops[k..];
      ApplyRepeatedDecodes(c, t, src, off, pos + Min(8, end - pos), end, ops[1..], tops, num, k - 1);
    } else {
      assert ops[0..] == ops;
    }
  }

  // ----- The nibble area

  ghost predicate NibbleIs(c: seq<byte>, p: nat, n: byte)
  {
    p / 2 < |c| && NibbleAt(c, p) == n
  }

  ghost predicate NibbleStream(c: seq<byte>, p: nat, ns: seq<byte>)
  {
    forall j: nat | j < |ns| :: NibbleIs(c, p + j, ns[j])
  }

  lemma NibbleStreamHead(c: seq<byte>, p: nat, ns: seq<byte>)
    requires NibbleStream(c, p, ns) && ns != []
    ensures p / 2 < |c| && NibbleAt(c, p) == ns[0]
  {
    assert NibbleIs(c, p + 0, ns[0]);
  }

  lemma NibbleStreamTail(c: seq<byte>, p: nat, ns: seq<byte>, k: nat)
    requires NibbleStream(c, p, ns) && k <= |ns|
    ensures NibbleStream(c, p + k, ns[k..])
  {
    forall j: nat | j < |ns[k..]|
      ensures NibbleIs(c, p + k + j, ns[k..][j])
    {
      assert NibbleIs(c, p + (k + j), ns[k + j]);
    }
  }

  lemma {:induction false} ReadCountDecodes(c: seq<byte>, p: nat, total: nat, count: nat, rest: seq<byte>)
    requires NibbleStream(c, p, E.CountNibbles(count) + rest) && total + count < 0x1_0000
    ensures D.ReadCount(c, p, total) == Ok((p + |E.CountNibbles(count)|, total + count))
    decreases count
  {
    hide NibbleAt, ToByte;
    var ns := E.CountNibbles(count);
    NibbleStreamHead(c, p, ns + rest);
    if count < 15 {
      ByteRoundTrip(count);
    } else {
      assert ByteVal(15) == 15;
      NibbleStreamTail(c, p, ns + rest, 1);
      assert (ns + rest)[1..] == E.CountNibbles(count - 15) + rest;
      ReadCountDecodes(c, p + 1, total + 15, count - 15, rest);
    }
  }

  ghost predicate SmallNums(nums: seq<byte>)
  {
    forall i | 0 <= i < |nums| :: nums[i] < 15
  }

  /** Short runs are written one number at a time. */
  lemma {:induction false} ShortRun(nums: seq<byte>)
    requires nums != [] && SmallNums(nums) && E.Run(nums) <= 3
    ensures E.Nibbles(nums) == [nums[0]] + E.Nibbles(nums[1..])
  {
    var r := E.Run(nums);
    if r > 1 {
      assert E.Run(nums[1..]) == r - 1;
      assert nums[1..][r - 1..] == nums[r..];
      assert E.RunNibbles(nums[0], r) == [nums[0]] + E.RunNibbles(nums[0], r - 1);
      assert E.Nibbles(nums[1..]) == E.RunNibbles(nums[0], r - 1) + E.Nibbles(nums[r..]);
    } else {
      assert E.RunNibbles(nums[0], 1) == [nums[0]];
    }
  }

  lemma NibblesHead(nums: seq<byte>)
    requires nums != [] && SmallNums(nums)
    ensures E.Nibbles(nums) != [] && E.Nibbles(nums)[0] == nums[0]
  {
    if E.Run(nums) <= 3 {
      ShortRun(nums);
    }
  }

  // ----- One step of the decoder's loop

  ghost predicate SyncedNibbles(c: seq<byte>, s: D.State, ops: seq<E.Op>, tops: seq<E.Top>)
    requires GoodTops(tops) && E.SmallCounts(ops)
  {
    NibbleStream(c, s.nibble, E.Nibbles(E.Nums(ops, tops)))
  }

  lemma NumsTail(ops: seq<E.Op>, tops: seq<E.Top>, k: nat)
    requires GoodTops(tops) && E.SmallCounts(ops) && k <= |ops|
    ensures E.SmallCounts(ops[k..]) && E.Nums(ops[k..], tops) == E.Nums(ops, tops)[k..]
  {
    hide E.NumFor;
  }

  /** How far one step goes: one operation, or a whole run of four or more. */
  ghost function StepLen(ops: seq<E.Op>, tops: seq<E.Top>): (k: nat)
    requires GoodTops(tops) && E.SmallCounts(ops) && ops != []
    ensures 1 <= k <= |ops|
  {
    var r := E.Run(E.Nums(ops, tops));
    if r <= 3 then 1 else r
  }

  lemma ShortRunDecodes(c: seq<byte>, p: nat, nums: seq<byte>, left: nat)
    requires SmallNums(nums) && nums != [] && |nums| == (left + 7) / 8 && E.Run(nums) <= 3
    requires NibbleStream(c, p, E.Nibbles(nums))
    ensures D.ReadRepetition(c, p + 1, left) == Ok((p + 1, 1))
    ensures NibbleStream(c, p + 1, E.Nibbles(nums[1..]))
  {
    hide NibbleAt, E.Nibbles, E.Run, NibbleStream;
    var ns := E.Nibbles(nums);
    ShortRun(nums);
    NibbleStreamTail(c, p, ns, 1);
    assert ns[1..] == E.Nibbles(nums[1..]);
    if left > 8 {
      NibblesHead(nums[1..]);
      NibbleStreamHead(c, p + 1, ns[1..]);
    }
  }

  lemma NibblesStep(nums: seq<byte>)
    requires SmallNums(nums) && nums != []
    ensures 0 < E.Run(nums) <= |nums| && E.Nibbles(nums) == E.RunNibbles(nums[0], E.Run(nums)) + E.Nibbles(nums[E.Run(nums)..])
  {
  }

  lemma LongRunDecodes(c: seq<byte>, p: nat, nums: seq<byte>, left: nat)
    requires SmallNums(nums) && nums != [] && |nums| == (left + 7) / 8 && E.Run(nums) > 3 && left <= MAX_DECMP_CHUNK_SIZE
    requires NibbleStream(c, p, E.Nibbles(nums))
    ensures D.ReadRepetition(c, p + 1, left) == Ok((p + 2 + |E.CountNibbles(E.Run(nums) - 4)|, E.Run(nums)))
    ensures NibbleStream(c, p + 2 + |E.CountNibbles(E.Run(nums) - 4)|, E.Nibbles(nums[E.Run(nums)..]))
  {
    hide NibbleAt, E.CountNibbles, D.ReadCount, NibbleStream, E.Nibbles, E.Run;
    NibblesStep(nums);
    var ns := E.Nibbles(nums);
    var run := E.Run(nums);
    var count := E.CountNibbles(run - 4);
    var rest := E.Nibbles(nums[run..]);
    assert ns == [nums[0], 15] + count + rest;
    NibbleStreamTail(c, p, ns, 1);
    NibbleStreamHead(c, p + 1, ns[1..]);
    NibbleStreamTail(c, p, ns, 2);
    assert ns[2..] == count + rest;
    ReadCountDecodes(c, p + 2, 4, run - 4, rest);
    NibbleStreamTail(c, p, ns, 2 + |count|);
    assert ns[2 + |count|..] == rest;
  }

  lemma RepetitionDecodes(c: seq<byte>, p: nat, ops: seq<E.Op>, tops: seq<E.Top>, left: nat)
    requires GoodTops(tops) && E.SmallCounts(ops) && ops != [] && |ops| == (left + 7) / 8 && left <= MAX_DECMP_CHUNK_SIZE
    requires NibbleStream(c, p, E.Nibbles(E.Nums(ops, tops)))
    ensures p / 2 < |c| && NibbleAt(c, p) == E.Nums(ops, tops)[0]
    ensures var k := StepLen(ops, tops);
            var r := D.ReadRepetition(c, p + 1, left);
            && r.Ok? && r.value.1 == k
            && E.SmallCounts(ops[k..])
            && NibbleStream(c, r.value.0, E.Nibbles(E.Nums(ops[k..], tops)))
  {
    hide NibbleAt, E.Nums, E.NumFor, NibbleStream, D.ReadRepetition, E.Nibbles;
    var nums := E.Nums(ops, tops);
    NibblesHead(nums);
    NibbleStreamHead(c, p, E.Nibbles(nums));
    NumsTail(ops, tops, StepLen(ops, tops));
    if E.Run(nums) <= 3 {
      ShortRunDecodes(c, p, nums, left);
    } else {
      LongRunDecodes(c, p, nums, left);
    }
  }

  lemma SingleDecodes(c: seq<byte>, s: D.State, src: seq<byte>, off: nat, pos: nat, end: nat, ops: seq<E.Op>, tops: seq<E.Top>)
    requires off <= pos < end <= |src| && end - off <= MAX_DECMP_CHUNK_SIZE && GoodTops(tops)
    requires Synced(c, s, src, off, pos, end, ops, tops)
    requires E.SmallCounts(ops) && SyncedNibbles(c, s, ops, tops)
    ensures D.ValidTops(E.TopBitmaps(tops)) && ops != []
    ensures var k := StepLen(ops, tops);
            var r := D.DecodeSingle(c, E.TopBitmaps(tops), s, end - off);
            && r.Ok? && E.SmallCounts(ops[k..])
            && Synced(c, r.value, src, off, Min(pos + 8 * k, end), end, ops[k..], tops)
            && SyncedNibbles(c, r.value, ops[k..], tops)
  {
    hide NibbleAt, E.Nums, E.NumFor, ValidOp, Lits, E.Meta1, E.Meta2, E.TopBitmaps, Stream, E.Nibbles, D.ReadRepetition, D.ApplyRepeated;
    GoodTopsValid(tops);
    OpsCount(src, pos, end, s.period, ops);
    RepetitionDecodes(c, s.nibble, ops, tops, end - pos);
    var k := StepLen(ops, tops);
    var num := NibbleAt(c, s.nibble);
    var rep := D.ReadRepetition(c, s.nibble + 1, end - pos).value;
    var t := s.(nibble := rep.0);
    RunNumbers(ops, tops, k);
    ApplyRepeatedDecodes(c, t, src, off, pos, end, ops, tops, num, k);
  }

  lemma RunNumbers(ops: seq<E.Op>, tops: seq<E.Top>, k: nat)
    requires GoodTops(tops) && E.SmallCounts(ops) && ops != [] && k == StepLen(ops, tops)
    ensures forall i | 0 <= i < k :: E.NumFor(tops, ops[i].bmap) == E.Nums(ops, tops)[0]
  {
    hide E.NumFor;
    forall i | 0 <= i < k
      ensures E.NumFor(tops, ops[i].bmap) == E.Nums(ops, tops)[0]
    {
      assert E.Nums(ops, tops)[i] == E.Nums(ops, tops)[0];
    }
  }

  lemma {:induction false} AllDecodes(c: seq<byte>, s: D.State, src: seq<byte>, off: nat, pos: nat, end: nat, ops: seq<E.Op>, tops: seq<E.Top>)
    requires off <= pos <= end <= |src| && end - off <= MAX_DECMP_CHUNK_SIZE && GoodTops(tops)
    requires Synced(c, s, src, off, pos, end, ops, tops)
    requires E.SmallCounts(ops) && SyncedNibbles(c, s, ops, tops)
    ensures D.ValidTops(E.TopBitmaps(tops))
    ensures var r := D.DecodeAll(c, E.TopBitmaps(tops), s, end - off);
            r.Ok? && r.value.out == src[..end]
    decreases end - pos
  {
    hide SyncedNibbles, E.SmallCounts, ValidOps, Lits, E.Meta1, E.Meta2, E.TopBitmaps, Stream, D.DecodeSingle;
    GoodTopsValid(tops);
    if pos < end {
      SingleDecodes(c, s, src, off, pos, end, ops, tops);
      var k := StepLen(ops, tops);
      var t := D.DecodeSingle(c, E.TopBitmaps(tops), s, end - off).value;
      AllDecodes(c, t, src, off, Min(pos + 8 * k, end), end, ops[k..], tops);
    }
  }

  // ----- One chunk

  lemma ShiftedNibble(c: seq<byte>, at: nat, p: seq<byte>, j: nat)
    requires Stream(c, at, p) && j / 2 < |p|
    ensures (2 * at + j) / 2 < |c| && NibbleAt(c, 2 * at + j) == NibbleAt(p, j)
  {
    assert (2 * at + j) / 2 == at + j / 2 && (2 * at + j) % 2 == j % 2;
    assert c[at..at + |p|][j / 2] == p[j / 2];
  }

  lemma PackedStream(c: seq<byte>, at: nat, ns: seq<byte>)
    requires forall i: nat | i < |ns| :: ns[i] <= 15
    requires Stream(c, at, PackNibbles(ns))
    ensures NibbleStream(c, 2 * at, ns)
  {
    hide PackNibbles, Stream, NibbleAt;
    PackNibblesHolds(ns);
    var start := 2 * at;
    forall j: nat | j < |ns|
      ensures NibbleIs(c, start + j, ns[j])
    {
      ShiftedNibble(c, at, PackNibbles(ns), j);
      assert NibbleAt(PackNibbles(ns), j) == ns[j];
    }
  }

  lemma TrailerCount(cnt: nat)
    requires cnt <= 3
    ensures cnt == (if CntBit(cnt, 0) then 1 else 0) + (if CntBit(cnt, 1) then 2 else 0)
  {
  }

  lemma TrailerPlace(i: nat, j: nat)
    requires i < BITMAP_COUNT && j < 10
    ensures (10 * i + j) / 10 == i && (10 * i + j) % 10 == j && 10 * i + j < 120
  {
  }

  lemma TrailerAt(tops: seq<Bmap>, trailer: seq<byte>, i: nat, j: nat)
    requires HoldsTrailer(trailer, tops) && i < BITMAP_COUNT && j < 10
    ensures BitAt(trailer, 10 * i + j) == if j < 8 then Bit(tops[i].bitmap, j) else CntBit(tops[i].periodBytecnt, j - 8)
  {
    hide Bit, BitAt, CntBit;
    TrailerPlace(i, j);
    assert BitAt(trailer, 10 * i + j) == TrailerBit(tops, 10 * i + j);
  }

  lemma TrailerByte(tops: seq<Bmap>, trailer: seq<byte>, i: nat)
    requires HoldsTrailer(trailer, tops) && i < BITMAP_COUNT
    ensures D.ReadByteBits(trailer, 10 * i) == tops[i].bitmap
  {
    var b := D.ReadByteBits(trailer, 10 * i);
    forall j: nat | j < 8
      ensures Bit(b, j) == Bit(tops[i].bitmap, j)
    {
      hide Bit, BitAt, D.ReadByteBits;
      TrailerAt(tops, trailer, i, j);
      D.ReadByteBitsAt(trailer, 10 * i, j);
    }
    ByteExtensional(b, tops[i].bitmap);
  }

  lemma TrailerBmap(tops: seq<Bmap>, trailer: seq<byte>, i: nat)
    requires HoldsTrailer(trailer, tops) && i < BITMAP_COUNT && tops[i].periodBytecnt <= MAX_PERIOD_BYTECNT
    ensures D.ReadBmap(trailer, i) == tops[i]
  {
    hide Bit, BitAt, CntBit, D.ReadByteBits, TrailerBit;
    TrailerByte(tops, trailer, i);
    TrailerAt(tops, trailer, i, 8);
    TrailerAt(tops, trailer, i, 9);
    TrailerCount(tops[i].periodBytecnt);
  }

  lemma TrailerDecodes(tops: seq<Bmap>, trailer: seq<byte>)
    requires |tops| == BITMAP_COUNT && forall i | 0 <= i < BITMAP_COUNT :: tops[i].periodBytecnt <= MAX_PERIOD_BYTECNT
    requires HoldsTrailer(trailer, tops)
    ensures D.ReadBmaps(trailer) == tops
  {
    hide D.ReadBmap, BitAt, TrailerBit;
    forall i | 0 <= i < BITMAP_COUNT
      ensures D.ReadBmap(trailer, i) == tops[i]
    {
      TrailerBmap(tops, trailer, i);
    }
  }

  lemma FoundTopsGood(ops: seq<E.Op>)
    requires E.SmallCounts(ops)
    ensures GoodTops(E.FindTops(ops, |ops|))
  {
    hide E.FindTops;
    var tops := E.FindTops(ops, |ops|);
    forall i | 0 <= i < |tops|
      ensures tops[i].bmap.periodBytecnt <= MAX_PERIOD_BYTECNT
    {
      assert tops[i] in tops;
    }
  }

  /** The areas of a compressed chunk are where its header says. */
  ghost predicate Layout(c: seq<byte>, coded: E.Coded, len: nat)
    requires E.SmallCounts(coded.ops)
  {
    var tops := E.FindTops(coded.ops, |coded.ops|);
    && |c| >= CMP_CHUNK_HDR + BITMAP_BYTECNT
    && ReadU24(c, 0) == |c| && ReadU24(c, 3) == len
    && ReadU24(c, 6) < |c| && ReadU24(c, 9) < |c| && ReadU24(c, 12) < |c|
    && Stream(c, CMP_CHUNK_HDR, coded.lits)
    && Stream(c, ReadU24(c, 6), E.Meta1(coded.ops))
    && Stream(c, ReadU24(c, 9), E.Meta2(coded.ops, tops))
    && NibbleStream(c, 2 * ReadU24(c, 12), E.Nibbles(E.Nums(coded.ops, tops)))
    && HoldsTrailer(c[|c| - BITMAP_BYTECNT..], E.TopBitmaps(tops))
  }

  lemma HeaderReads(c: seq<byte>, h0: nat, h1: nat, h2: nat, h3: nat, h4: nat)
    requires E.IsU24(h0) && E.IsU24(h1) && E.IsU24(h2) && E.IsU24(h3) && E.IsU24(h4)
    requires |c| >= CMP_CHUNK_HDR && c[..CMP_CHUNK_HDR] == E.ChunkHeader(h0, h1, h2, h3, h4)
    ensures ReadU24(c, 0) == h0 && ReadU24(c, 3) == h1 && ReadU24(c, 6) == h2 && ReadU24(c, 9) == h3 && ReadU24(c, 12) == h4
  {
    hide U24, ReadU24;
    var h := E.ChunkHeader(h0, h1, h2, h3, h4);
    assert c[0..3] == h[0..3] == U24(h0);
    assert c[3..6] == h[3..6] == U24(h1);
    assert c[6..9] == h[6..9] == U24(h2);
    assert c[9..12] == h[9..12] == U24(h3);
    assert c[12..15] == h[12..15] == U24(h4);
    U24RoundTrip(c, 0, h0);
    U24RoundTrip(c, 3, h1);
    U24RoundTrip(c, 6, h2);
    U24RoundTrip(c, 9, h3);
    U24RoundTrip(c, 12, h4);
  }

  lemma Areas(h: seq<byte>, lits: seq<byte>, m1: seq<byte>, m2: seq<byte>, m3: seq<byte>, t: seq<byte>, c: seq<byte>)
    requires c == h + lits + m1 + m2 + m3 + t
    ensures Stream(c, |h|, lits) && Stream(c, |h| + |lits|, m1) && Stream(c, |h| + |lits| + |m1|, m2)
    ensures Stream(c, |h| + |lits| + |m1| + |m2|, m3) && c[|c| - |t|..] == t && c[..|h|] == h
  {
    assert c[0..|c|] == c;
    assert Stream(c, 0, c);
    assert |c| == |h| + |lits| + |m1| + |m2| + |m3| + |t|;
    assert Stream(c, 0, h + lits + m1 + m2 + m3 + t);
    hide Stream;
    StreamSplit(c, 0, h + lits + m1 + m2 + m3, t);
    StreamSplit(c, 0, h + lits + m1 + m2, m3);
    StreamSplit(c, 0, h + lits + m1, m2);
    StreamSplit(c, 0, h + lits, m1);
    StreamSplit(c, 0, h, lits);
    StreamIs(c, 0, h);
    StreamIs(c, |c| - |t|, t);
  }

  lemma StreamIs(c: seq<byte>, at: nat, s: seq<byte>)
    requires Stream(c, at, s)
    ensures at + |s| <= |c| && c[at..at + |s|] == s
  {
  }

  lemma TrailerHolds(tops: seq<Bmap>)
    requires |tops| == BITMAP_COUNT
    ensures HoldsTrailer(E.WriteTrailer(tops, 120), tops)
  {
    hide E.WriteTrailer, BitAt, TrailerBit;
  }

  lemma MetadataLayout(coded: E.Coded, len: nat)
    requires E.SmallCounts(coded.ops) && len <= MAX_DECMP_CHUNK_SIZE
    ensures var r := E.BuildMetadata(coded, len);
            r.Some? ==> Layout(r.value, coded, len) && |r.value| <= len + CHUNK_HDR
  {
    hide E.ChunkHeader, ReadU24, PackNibbles, E.FindTops, E.Meta1, E.Meta2, E.Nums, E.Nibbles, E.WriteTrailer, E.TopBitmaps, HoldsTrailer, Stream, NibbleStream;
    var r := E.BuildMetadata(coded, len);
    if r.Some? {
      var tops := E.FindTops(coded.ops, |coded.ops|);
      var m1 := E.Meta1(coded.ops);
      var m2 := E.Meta2(coded.ops, tops);
      var ns := E.Nibbles(E.Nums(coded.ops, tops));
      var m3 := PackNibbles(ns);
      var t := E.WriteTrailer(E.TopBitmaps(tops), 120);
      var off1 := CMP_CHUNK_HDR + |coded.lits|;
      var off2 := off1 + |m1|;
      var off3 := off2 + |m2|;
      var total := off3 + |m3| + BITMAP_BYTECNT;
      Areas(E.ChunkHeader(total, len, off1, off2, off3), coded.lits, m1, m2, m3, t, r.value);
      HeaderReads(r.value, total, len, off1, off2, off3);
      PackedStream(r.value, off3, ns);
      TrailerHolds(E.TopBitmaps(tops));
    }
  }

  lemma LayoutDecodes(c: seq<byte>, coded: E.Coded, src: seq<byte>, off: nat, len: nat)
    requires E.SmallCounts(coded.ops) && off + len <= |src| && len <= MAX_DECMP_CHUNK_SIZE
    requires Layout(c, coded, len)
    requires ValidOps(src, off, off + len, 8, coded.ops) && coded.lits == Lits(src, off, off + len, coded.ops)
    ensures D.DecodeCompressed(c, src[..off], len) == Ok(src[..off + len])
  {
    hide ReadU24, E.FindTops, E.Meta1, E.Meta2, E.Nums, E.Nibbles, E.TopBitmaps, BitAt, TrailerBit, NibbleAt, ValidOps, Lits, D.DecodeAll, Stream, NibbleStream, D.ReadBmaps;
    var tops := E.FindTops(coded.ops, |coded.ops|);
    FoundTopsGood(coded.ops);
    GoodTopsValid(tops);
    TrailerDecodes(E.TopBitmaps(tops), c[|c| - BITMAP_BYTECNT..]);
    AllDecodes(c, D.StartState(c, src[..off]), src, off, off, off + len, coded.ops, tops);
  }

  /** For every chunk and every prefix already coded, what the encoder wrote as
      the compressed form decodes to exactly the bytes of the chunk. */
  lemma CompressedChunkDecodes(src: seq<byte>, off: nat, len: nat)
    requires len <= MAX_DECMP_CHUNK_SIZE && off + len <= |src|
    requires off == 0 || off >= E.MIN_PERIOD || len == 0
    ensures var r := E.BuildCompressed(src, off, len);
            r.Some? ==>
              && D.DecodeCompressed(r.value, src[..off], len) == Ok(src[..off + len])
              && CMP_CHUNK_HDR <= |r.value| <= len + CHUNK_HDR
              && ReadU24(r.value, 0) == |r.value| && ReadU24(r.value, 3) == len
  {
    hide ReadU24, E.EncodeData, E.BuildMetadata, D.DecodeCompressed, ValidOps, Lits;
    var r := E.BuildCompressed(src, off, len);
    if r.Some? {
      var coded := E.EncodeData(src, off, len).value;
      EncodeDataValid(src, off, len);
      MetadataLayout(coded, len);
      LayoutDecodes(r.value, coded, src, off, len);
    }
  }

  // ----- The whole stream

  lemma StoredChunkReads(data: seq<byte>)
    requires |data| <= MAX_DECMP_CHUNK_SIZE
    ensures var c := E.StoredChunk(data);
            && |c| == |data| + CHUNK_HDR && c[CHUNK_HDR..] == data
            && ReadU24(c, 0) == |c| && ReadU24(c, 3) == |data|
  {
    hide U24, ReadU24;
    var c := E.StoredChunk(data);
    assert c[0..3] == U24(|data| + CHUNK_HDR) && c[3..6] == U24(|data|);
    U24RoundTrip(c, 0, |data| + CHUNK_HDR);
    U24RoundTrip(c, 3, |data|);
  }

  lemma ChunkStartLarge(src: seq<byte>, off: nat)
    requires E.ChunkStart(src, off)
    ensures off == 0 || off >= E.MIN_PERIOD || E.ChunkLen(src, off) == 0
    ensures E.ChunkStart(src, off + E.ChunkLen(src, off))
  {
  }

  /** A compressed form that is as long as the stored one would be: the encoder
      keeps it, but the decoder takes its length to mean a stored chunk. */
  ghost predicate Ambiguous(src: seq<byte>, off: nat)
    requires E.ChunkStart(src, off)
  {
    var len := E.ChunkLen(src, off);
    var body := E.BuildCompressed(src, off, len);
    body.Some? && |body.value| == len + CHUNK_HDR
  }

  /** The chunk is not mistaken for a stored one, or its compressed form happens
      to hold, after the header, the very bytes of the chunk. */
  ghost predicate Faithful(src: seq<byte>, off: nat)
    requires E.ChunkStart(src, off)
  {
    Ambiguous(src, off) ==> E.EncodeChunk(src, off)[CHUNK_HDR..] == src[off..off + E.ChunkLen(src, off)]
  }

  lemma ChunkReads(src: seq<byte>, off: nat)
    requires E.ChunkStart(src, off)
    ensures var c, len := E.EncodeChunk(src, off), E.ChunkLen(src, off);
            && |c| >= CHUNK_HDR && ReadU24(c, 0) == |c| && ReadU24(c, 3) == len
            && |c| <= len + CHUNK_HDR
            && (Ambiguous(src, off) ==> D.DecodeChunk(c, src[..off], len) == Ok(src[..off] + c[CHUNK_HDR..]))
            && (!Ambiguous(src, off) ==> D.DecodeChunk(c, src[..off], len) == Ok(src[..off + len]))
  {
    hide U24, ReadU24, E.BuildCompressed, D.DecodeCompressed, E.StoredChunk;
    var len := E.ChunkLen(src, off);
    ChunkStartLarge(src, off);
    var body := E.BuildCompressed(src, off, len);
    if body.Some? {
      CompressedChunkDecodes(src, off, len);
    } else {
      StoredChunkReads(src[off..off + len]);
      assert src[..off] + src[off..off + len] == src[..off + len];
    }
  }

  lemma PrefixReads(c: seq<byte>, rest: seq<byte>)
    requires |c| >= CHUNK_HDR
    ensures ReadU24(c + rest, 0) == ReadU24(c, 0) && ReadU24(c + rest, 3) == ReadU24(c, 3)
  {
    hide ByteVal;
  }

  ghost predicate AllFaithful(src: seq<byte>, off: nat)
  {
    forall o: nat | off <= o && E.ChunkStart(src, o) :: Faithful(src, o)
  }

  lemma DecodeStep(c: seq<byte>, rest: seq<byte>, out: seq<byte>, decmpLen: nat, destSize: nat, next: seq<byte>)
    requires CHUNK_HDR <= |c| == ReadU24(c, 0) && 0 < decmpLen == ReadU24(c, 3) <= MAX_DECMP_CHUNK_SIZE
    requires |out| + decmpLen <= destSize && D.DecodeChunk(c, out, decmpLen) == Ok(next)
    ensures D.DecodeChunks(c + rest, out, destSize) == D.DecodeChunks(rest, next, destSize)
  {
    hide ReadU24, D.DecodeChunk;
    PrefixReads(c, rest);
    assert (c + rest)[..|c|] == c && (c + rest)[|c|..] == rest;
  }

  /** One turn of the decoder's loop over the output of the encoder. */
  lemma StreamStep(src: seq<byte>, off: nat, destSize: nat)
    requires E.ChunkStart(src, off) && off < |src| && off + E.ChunkLen(src, off) <= destSize
    ensures var c, len := E.EncodeChunk(src, off), E.ChunkLen(src, off);
            var next := D.DecodeChunk(c, src[..off], len);
            && next.Ok? && E.ChunkStart(src, off + len) && |next.value| == off + len
            && D.DecodeChunks(E.EncodeChunks(src, off), src[..off], destSize)
               == D.DecodeChunks(E.EncodeChunks(src, off + len), next.value, destSize)
  {
    hide ReadU24, E.EncodeChunk, D.DecodeChunk, D.DecodeChunks, E.ChunkStart, Ambiguous;
    var c, len := E.EncodeChunk(src, off), E.ChunkLen(src, off);
    ChunkStartLarge(src, off);
    ChunkReads(src, off);
    DecodeStep(c, E.EncodeChunks(src, off + len), src[..off], len, destSize, D.DecodeChunk(c, src[..off], len).value);
  }

  lemma NotAmbiguousEmpty(src: seq<byte>)
    ensures E.ChunkStart(src, |src|) && !Ambiguous(src, |src|)
  {
  }

  lemma StreamEnd(src: seq<byte>, destSize: nat)
    requires |src| <= destSize
    ensures E.ChunkStart(src, |src|) && D.DecodeChunks(E.EncodeChunks(src, |src|), src[..|src|], destSize) == Ok(src)
  {
    hide ReadU24, E.EncodeChunk, D.DecodeChunk;
    NotAmbiguousEmpty(src);
    ChunkReads(src, |src|);
    var c := E.EncodeChunk(src, |src|);
    assert c[..|c|] == c && src[..|src|] == src;
  }

  lemma NoChunkBetween(src: seq<byte>, off: nat)
    requires E.ChunkStart(src, off) && off < |src|
    ensures forall o: nat | off < o < off + E.ChunkLen(src, off) :: !E.ChunkStart(src, o)
  {
    forall o: nat | off < o < off + E.ChunkLen(src, off)
      ensures !E.ChunkStart(src, o)
    {
      assert off % MAX_DECMP_CHUNK_SIZE == 0;
      assert o == off + (o - off) && 0 < o - off < MAX_DECMP_CHUNK_SIZE;
    }
  }

  lemma AllFaithfulStep(src: seq<byte>, off: nat)
    requires E.ChunkStart(src, off) && off < |src|
    ensures E.ChunkStart(src, off + E.ChunkLen(src, off))
    ensures AllFaithful(src, off) <==> Faithful(src, off) && AllFaithful(src, off + E.ChunkLen(src, off))
  {
    hide E.ChunkLen, E.ChunkStart, Faithful;
    ChunkStartLarge(src, off);
    NoChunkBetween(src, off);
  }

  /** A chunk that is not faithful puts wrong bytes in the output for good. */
  lemma UnfaithfulStep(src: seq<byte>, off: nat, destSize: nat)
    requires E.ChunkStart(src, off) && off < |src| <= destSize && !Faithful(src, off)
    ensures D.DecodeChunks(E.EncodeChunks(src, off), src[..off], destSize) != Ok(src)
  {
    hide E.EncodeChunk, D.DecodeChunk, D.DecodeChunks, E.EncodeChunks, Ambiguous, E.ChunkStart;
    var c, len := E.EncodeChunk(src, off), E.ChunkLen(src, off);
    StreamStep(src, off, destSize);
    ChunkReads(src, off);
    var next := D.DecodeChunk(c, src[..off], len).value;
    assert next[off..] == c[CHUNK_HDR..];
    assert src[..off + len][off..] == src[off..off + len];
    assert next != src[..off + len];
  }

  lemma FaithfulStep(src: seq<byte>, off: nat)
    requires E.ChunkStart(src, off) && off < |src| && Faithful(src, off)
    ensures D.DecodeChunk(E.EncodeChunk(src, off), src[..off], E.ChunkLen(src, off)) == Ok(src[..off + E.ChunkLen(src, off)])
  {
    hide E.EncodeChunk, D.DecodeChunk, Ambiguous, E.ChunkStart, ReadU24;
    ChunkReads(src, off);
    var len := E.ChunkLen(src, off);
    assert src[..off] + src[off..off + len] == src[..off + len];
  }

  lemma LastFaithful(src: seq<byte>)
    ensures AllFaithful(src, |src|)
  {
    hide Ambiguous;
    NotAmbiguousEmpty(src);
  }

  lemma {:induction false} StreamRoundTrip(src: seq<byte>, off: nat, destSize: nat)
    requires E.ChunkStart(src, off) && off <= |src| <= destSize
    ensures D.DecodeChunks(E.EncodeChunks(src, off), src[..off], destSize) == Ok(src) <==> AllFaithful(src, off)
    decreases |src| - off
  {
    hide E.EncodeChunk, D.DecodeChunk, D.DecodeChunks, E.EncodeChunks, AllFaithful, Faithful, E.ChunkStart;
    if off == |src| {
      StreamEnd(src, destSize);
      LastFaithful(src);
    } else {
      AllFaithfulStep(src, off);
      if Faithful(src, off) {
        StreamStep(src, off, destSize);
        FaithfulStep(src, off);
        StreamRoundTrip(src, off + E.ChunkLen(src, off), destSize);
      } else {
        UnfaithfulStep(src, off, destSize);
      }
    }
  }

  /** The round trip of whole streams holds exactly when no chunk is mistaken
      for a stored one with other contents. */
  lemma RoundTrip(src: seq<byte>, destSize: nat)
    requires |src| <= destSize
    ensures D.Decompress(E.Compress(src), destSize) == Ok(src)
            <==> forall off: nat | E.ChunkStart(src, off) :: Faithful(src, off)
  {
    assert E.ChunkStart(src, 0);
    hide D.DecodeChunks, E.EncodeChunks, Faithful;
    StreamRoundTrip(src, 0, destSize);
    var s := E.Compress(src);
    assert s[..4] == MAGIC && s[4..] == E.EncodeChunks(src, 0) && src[..0] == [];
  }

  /** A chunk that does not fit is out of range, before anything of it is decoded. */
  lemma DecodeNoRoom(c: seq<byte>, rest: seq<byte>, out: seq<byte>, destSize: nat)
    requires CHUNK_HDR <= |c| == ReadU24(c, 0) && ReadU24(c, 3) <= MAX_DECMP_CHUNK_SIZE && |out| <= destSize < |out| + ReadU24(c, 3)
    ensures D.DecodeChunks(c + rest, out, destSize) == Err(Range)
  {
    hide ReadU24, D.DecodeChunk;
    PrefixReads(c, rest);
  }

  lemma {:induction false} StreamTooLong(src: seq<byte>, off: nat, destSize: nat)
    requires E.ChunkStart(src, off) && off <= destSize < |src| && AllFaithful(src, off)
    ensures D.DecodeChunks(E.EncodeChunks(src, off), src[..off], destSize) == Err(Range)
    decreases |src| - off
  {
    hide E.EncodeChunk, D.DecodeChunk, D.DecodeChunks, AllFaithful, Faithful, E.ChunkStart, ReadU24, Ambiguous;
    var c, len := E.EncodeChunk(src, off), E.ChunkLen(src, off);
    AllFaithfulStep(src, off);
    ChunkReads(src, off);
    if off + len > destSize {
      DecodeNoRoom(c, E.EncodeChunks(src, off + len), src[..off], destSize);
    } else {
      StreamStep(src, off, destSize);
      FaithfulStep(src, off);
      StreamTooLong(src, off + len, destSize);
    }
  }

  /** With too small a destination the same streams are out of range instead. */
  lemma TooLong(src: seq<byte>, destSize: nat)
    requires destSize < |src| && AllFaithful(src, 0)
    ensures D.Decompress(E.Compress(src), destSize) == Err(Range)
  {
    assert E.ChunkStart(src, 0);
    hide D.DecodeChunks, E.EncodeChunks, AllFaithful;
    StreamTooLong(src, 0, destSize);
    var s := E.Compress(src);
    assert s[..4] == MAGIC && s[4..] == E.EncodeChunks(src, 0) && src[..0] == [];
  }

  /** A stream starts with a byte that tells it apart from blocks that are stored, whose
      low nibble is 15 (apfsck/compress.c:245-253). */
  lemma StreamStarts(src: seq<byte>)
    ensures var s := E.Compress(src); |s| > 4 && s[..4] == [0x5A, 0x42, 0x4D, 0x09] && s[0] & 0xF != 0xF
  {
    hide E.EncodeChunk;
    ChunkReads(src, 0);
  }
}
