/** The choices of the encoder: the pattern for each group of bytes, the bitmaps in
    the dictionary, and whether a chunk is compressed at all
    (lib/libzbitmap.c:571-638, 939-982, 1008-1074). */
module ZbmChoice {
  import opened Prelude
  import opened ZbmFormat
  import E = ZbmEncode
  import R = ZbmRoundTrip

  // ----- Compressed or stored

  /** The operations of a stretch of data, as if there were no limit. */
  ghost function NewOps(src: seq<byte>, end: nat, pos: nat, period: nat): (ops: seq<E.Op>)
    requires pos <= end <= |src| && E.MIN_PERIOD <= period <= Min(pos, E.MAX_PERIOD)
    ensures E.SmallCounts(ops)
    decreases end - pos
  {
    if pos == end then []
    else
      var n := Min(8, end - pos);
      var op := E.NewOp(src, pos, n, period);
      [op] + NewOps(src, end, pos + n, op.period)
  }

  /** Those of a chunk. The first one starts with eight literals. */
  ghost function Ops(src: seq<byte>, off: nat, len: nat): (ops: seq<E.Op>)
    requires CMP_CHUNK_HDR <= len && off + len <= |src| && (off == 0 || off >= E.MIN_PERIOD)
    ensures E.SmallCounts(ops)
  {
    if off == 0 then [E.Op(Bmap(0xff, 0), 0)] + NewOps(src, len, 8, 8)
    else NewOps(src, off + len, off, 8)
  }

  /** The length of the compressed form: header, literals, periods, listed bitmaps,
      nibbles and trailer. */
  ghost function Needed(src: seq<byte>, off: nat, len: nat): (n: nat)
    requires CMP_CHUNK_HDR <= len && off + len <= |src| && (off == 0 || off >= E.MIN_PERIOD)
  {
    var ops := Ops(src, off, len);
    var tops := E.FindTops(ops, |ops|);
    var nibbles := E.Nibbles(E.Nums(ops, tops));
    15 + |R.Lits(src, off, off + len, ops)| + |E.Meta1(ops)| + |E.Meta2(ops, tops)| + (|nibbles| + 1) / 2 + 17
  }

  lemma {:induction false} WriteFits(src: seq<byte>, pos: nat, n: nat, bitmap: byte, i: nat, w: nat, limit: nat)
    requires i <= n <= 8 && pos + n <= |src| && w + |R.OpLits(src, pos, n, bitmap, i)| < limit
    ensures E.WriteNew(src, pos, n, bitmap, i, w, limit).Some?
    decreases n - i
  {
    hide Bit;
    if i < n {
      WriteFits(src, pos, n, bitmap, i + 1, if Bit(bitmap, i) then w + 1 else w, limit);
    }
  }

  /** The limit changes nothing but whether the encoder gives up, and it does not
      when the literals stay below. */
  lemma {:induction false} Unlimited(src: seq<byte>, end: nat, pos: nat, period: nat, w: nat, limit: nat)
    requires pos <= end <= |src| && E.MIN_PERIOD <= period <= Min(pos, E.MAX_PERIOD)
    ensures var r, ops := E.EncodeOps(src, end, pos, period, w, limit), NewOps(src, end, pos, period);
            && (r.Some? ==> r.value.ops == ops)
            && (w + |R.Lits(src, pos, end, ops)| < limit ==> r.Some?)
    decreases end - pos
  {
    hide E.NewOp, E.WriteNew, R.OpLits;
    if pos < end {
      var n := Min(8, end - pos);
      var op := E.NewOp(src, pos, n, period);
      var lit := E.WriteNew(src, pos, n, op.bmap.bitmap, 0, w, limit);
      var rest := NewOps(src, end, pos + n, op.period);
      assert ([op] + rest)[1..] == rest;
      R.WriteNewLits(src, pos, n, op.bmap.bitmap, 0, w, limit);
      if lit.Some? {
        Unlimited(src, end, pos + n, op.period, w + |lit.value|, limit);
      } else if w + |R.OpLits(src, pos, n, op.bmap.bitmap, 0)| < limit {
        WriteFits(src, pos, n, op.bmap.bitmap, 0, w, limit);
      }
    }
  }

  lemma DataIs(src: seq<byte>, off: nat, len: nat)
    requires CMP_CHUNK_HDR <= len && off + len <= |src| && (off == 0 || off >= E.MIN_PERIOD)
    ensures var r, ops := E.EncodeData(src, off, len), Ops(src, off, len);
            && (r.Some? ==> r.value.ops == ops && r.value.lits == R.Lits(src, off, off + len, ops))
            && (CMP_CHUNK_HDR + |R.Lits(src, off, off + len, ops)| < len + CHUNK_HDR ==> r.Some?)
  {
    hide E.EncodeOps, NewOps, R.Lits, R.ValidOps;
    R.EncodeDataValid(src, off, len);
    if off == 0 {
      Unlimited(src, len, 8, 8, CMP_CHUNK_HDR + 8, len + CHUNK_HDR);
      FirstLits(src, len, NewOps(src, len, 8, 8));
    } else {
      Unlimited(src, off + len, off, 8, CMP_CHUNK_HDR, len + CHUNK_HDR);
    }
  }

  lemma FirstLits(src: seq<byte>, end: nat, ops: seq<E.Op>)
    requires 8 <= end <= |src|
    ensures R.Lits(src, 0, end, [E.Op(Bmap(0xff, 0), 0)] + ops) == src[..8] + R.Lits(src, 8, end, ops)
  {
    hide Bit;
    assert ([E.Op(Bmap(0xff, 0), 0)] + ops)[1..] == ops;
    R.AllLits(src, 0);
  }

  lemma MetadataIs(coded: E.Coded, len: nat)
    requires E.SmallCounts(coded.ops) && len <= MAX_DECMP_CHUNK_SIZE
    ensures var tops := E.FindTops(coded.ops, |coded.ops|);
            var nibbles := E.Nibbles(E.Nums(coded.ops, tops));
            var needed := 15 + |coded.lits| + |E.Meta1(coded.ops)| + |E.Meta2(coded.ops, tops)| + (|nibbles| + 1) / 2 + 17;
            var r := E.BuildMetadata(coded, len);
            (r.Some? <==> needed <= len + 6) && (r.Some? ==> |r.value| == needed)
  {
    hide E.FindTops, E.Meta1, E.Meta2, E.Nums, E.Nibbles, PackNibbles, E.WriteTrailer, E.ChunkHeader, E.SmallCounts;
  }

  /** A chunk has a compressed form, wherever it is in the source, if and only if it
      has 15 bytes at least and the form is no longer than a stored chunk. */
  lemma CompressedIff(src: seq<byte>, off: nat, len: nat)
    requires len <= MAX_DECMP_CHUNK_SIZE && off + len <= |src| && (off == 0 || off >= E.MIN_PERIOD || len == 0)
    ensures E.BuildCompressed(src, off, len).Some? <==> len >= 15 && Needed(src, off, len) <= len + 6
    ensures E.BuildCompressed(src, off, len).Some? ==> |E.BuildCompressed(src, off, len).value| == Needed(src, off, len)
  {
    hide E.EncodeData, E.BuildMetadata, E.FindTops, E.Meta1, E.Meta2, E.Nums, E.Nibbles, R.Lits, Ops;
    if len >= CMP_CHUNK_HDR {
      DataIs(src, off, len);
      var coded := E.EncodeData(src, off, len);
      if coded.Some? {
        MetadataIs(coded.value, len);
      }
    }
  }

  /** So each chunk of a stream takes the shorter of both forms. */
  lemma ChunkTakes(src: seq<byte>, off: nat)
    requires E.ChunkStart(src, off)
    ensures var len := E.ChunkLen(src, off);
            |E.EncodeChunk(src, off)| == if len >= 15 then Min(Needed(src, off, len), len + 6) else len + 6
    ensures var len := E.ChunkLen(src, off);
            len < 15 || Needed(src, off, len) > len + 6 ==> E.EncodeChunk(src, off) == E.StoredChunk(src[off..off + len])
  {
    hide E.BuildCompressed, Needed;
    CompressedIff(src, off, E.ChunkLen(src, off));
  }

  // ----- The best pattern

  /** How many of the next bytes, up to eight, differ from those at another place. */
  ghost function Different(src: seq<byte>, at: nat, pos: nat, n: nat): (d: nat)
    requires n <= 8 && at + 8 <= pos && pos + n <= |src|
  {
    |set i: nat | i < 8 && DiffersAt(src, at, pos, n, i)|
  }

  ghost predicate DiffersAt(src: seq<byte>, at: nat, pos: nat, n: nat, i: nat)
    requires n <= 8 && at + 8 <= pos && pos + n <= |src| && i < 8
  {
    src[at + i] != if i < n then src[pos + i] else 0
  }

  /** The cost of a place: the bytes that differ, and the bytes of its period, if it
      is not the current one. */
  ghost function PlaceCost(src: seq<byte>, pos: nat, n: nat, period: nat, at: nat): (c: nat)
    requires n <= 8 && at + 8 <= pos && pos + n <= |src|
  {
    Different(src, at, pos, n) + if pos - at == period then 0 else if pos - at <= 255 then 1 else 2
  }

  /** The places that are looked at: far ones must start with the same byte. */
  ghost predicate InReach(src: seq<byte>, pos: nat, period: nat, at: nat)
    requires pos < |src|
  {
    at + 8 <= pos && (pos - at == period || pos - at <= 255 || (pos - at <= 65535 && src[at] == src[pos]))
  }

  /** In this order: the current one, the near ones, and the far ones. */
  ghost function Order(pos: nat, period: nat, at: nat): nat
  {
    if pos - at == period then 0 else if pos - at <= 255 then 1 + at else 1 + pos + at
  }

  /** b costs less than x, or as much and comes first. */
  ghost predicate Wins(src: seq<byte>, pos: nat, n: nat, period: nat, b: nat, x: nat)
    requires n <= 8 && b + 8 <= pos && x + 8 <= pos && pos + n <= |src|
  {
    var c, d := PlaceCost(src, pos, n, period, b), PlaceCost(src, pos, n, period, x);
    c < d || (c == d && Order(pos, period, b) <= Order(pos, period, x))
  }

  /** The places from k on where a sequence is true. */
  ghost function Trues(s: seq<bool>, k: nat): set<nat>
  {
    set i: nat | k <= i < |s| && s[i]
  }

  lemma TruesStep(s: seq<bool>, k: nat)
    requires k < |s|
    ensures |Trues(s, k)| == |Trues(s, k + 1)| + if s[k] then 1 else 0
  {
    assert Trues(s, k) == Trues(s, k + 1) + if s[k] then {k} else {};
  }

  function Unequal(a: seq<byte>, b: seq<byte>): (s: seq<bool>)
    requires |a| == |b|
    ensures |s| == |a| && forall i: nat | i < |s| :: s[i] == (a[i] != b[i])
  {
    seq(|a|, i requires 0 <= i < |a| => a[i] != b[i])
  }

  lemma {:induction false} ByteDiffCounts(a: seq<byte>, b: seq<byte>, k: nat)
    requires |a| == |b| && k <= |a|
    ensures E.ByteDiff(a[k..], b[k..]) == |Trues(Unequal(a, b), k)|
    decreases |a| - k
  {
    if k < |a| {
      ByteDiffCounts(a, b, k + 1);
      TruesStep(Unequal(a, b), k);
    }
  }

  lemma CostIs(src: seq<byte>, at: nat, pos: nat, n: nat)
    requires n <= 8 && at + 8 <= pos && pos + n <= |src|
    ensures E.Cost(src, at, pos, n) == Different(src, at, pos, n)
  {
    var a, b := src[at..at + 8], E.Needle(src, pos, n);
    ByteDiffCounts(a, b, 0);
    assert a[0..] == a && b[0..] == b;
    assert Trues(Unequal(a, b), 0) == set i: nat | i < 8 && DiffersAt(src, at, pos, n, i);
  }

  /** b is the best of the places that were looked at: the current one, the near ones
      before `near` and the far ones before `far`. */
  ghost predicate BestOf(src: seq<byte>, pos: nat, n: nat, period: nat, near: nat, far: nat, b: E.Best)
    requires n <= 8 && pos + n <= |src| && 8 <= period <= pos
  {
    && E.ValidPlace(pos, b.at) && Looked(src, pos, n, period, near, far, b.at) && b.cost == PlaceCost(src, pos, n, period, b.at)
    && forall x: nat | x + 8 <= pos && Looked(src, pos, n, period, near, far, x) :: Wins(src, pos, n, period, b.at, x)
  }

  ghost predicate Looked(src: seq<byte>, pos: nat, n: nat, period: nat, near: nat, far: nat, x: nat)
    requires n <= 8 && pos + n <= |src|
  {
    && x + 8 <= pos
    && (pos - x == period || (pos - x <= 255 && x < near) || (255 < pos - x <= 65535 && x < far && n > 0 && src[x] == src[pos]))
  }

  lemma {:induction false} NearBest(src: seq<byte>, pos: nat, n: nat, period: nat, at: nat, best: E.Best)
    requires 0 < n <= 8 && pos + n <= |src| && 8 <= period <= Min(pos, 0xffff) && pos <= at + 255 && at <= pos
    requires BestOf(src, pos, n, period, at, 0, best) && best.cost >= 2
    ensures BestOf(src, pos, n, period, pos, 0, E.ScanNear(src, pos, n, at, best))
    decreases pos - at
  {
    hide PlaceCost, E.Cost;
    if at + 8 > pos {
      NoMoreNear(src, pos, n, period, at, best);
    } else {
      NearStep(src, pos, n, period, at, best);
      CostIs(src, at, pos, n);
      var diff := E.Cost(src, at, pos, n);
      if diff + 1 < best.cost {
        if diff == 0 {
          NearExit(src, pos, n, period, at, E.Best(at, 1));
        } else {
          NearBest(src, pos, n, period, at + 1, E.Best(at, diff + 1));
        }
      } else {
        NearBest(src, pos, n, period, at + 1, best);
      }
    }
  }

  lemma NoMoreNear(src: seq<byte>, pos: nat, n: nat, period: nat, at: nat, best: E.Best)
    requires 0 < n <= 8 && pos + n <= |src| && 8 <= period <= Min(pos, 0xffff) && at + 8 > pos && at <= pos
    requires BestOf(src, pos, n, period, at, 0, best)
    ensures BestOf(src, pos, n, period, pos, 0, best)
  {
    hide PlaceCost;
  }

  /** One more near place. */
  lemma NearStep(src: seq<byte>, pos: nat, n: nat, period: nat, at: nat, best: E.Best)
    requires 0 < n <= 8 && pos + n <= |src| && 8 <= period <= Min(pos, 0xffff) && pos <= at + 255 && at + 8 <= pos
    requires BestOf(src, pos, n, period, at, 0, best)
    ensures var diff := E.Cost(src, at, pos, n);
            if diff + 1 < best.cost then BestOf(src, pos, n, period, at + 1, 0, E.Best(at, diff + 1))
            else BestOf(src, pos, n, period, at + 1, 0, best)
  {
    hide E.Cost, Different;
    CostIs(src, at, pos, n);
    assert Looked(src, pos, n, period, at, 0, pos - period);
    assert Wins(src, pos, n, period, best.at, pos - period);
    var diff := E.Cost(src, at, pos, n);
    var b := if diff + 1 < best.cost then E.Best(at, diff + 1) else best;
    assert Looked(src, pos, n, period, at + 1, 0, b.at);
    forall x: nat | x + 8 <= pos && Looked(src, pos, n, period, at + 1, 0, x)
      ensures Wins(src, pos, n, period, b.at, x)
    {
      if Looked(src, pos, n, period, at, 0, x) {
        assert Wins(src, pos, n, period, best.at, x);
      } else {
        assert x == at;
      }
    }
  }

  /** A near place where nothing differs ends the search. */
  lemma NearExit(src: seq<byte>, pos: nat, n: nat, period: nat, at: nat, best: E.Best)
    requires 0 < n <= 8 && pos + n <= |src| && 8 <= period <= Min(pos, 0xffff) && pos <= at + 255 && at + 8 <= pos
    requires BestOf(src, pos, n, period, at + 1, 0, best) && best == E.Best(at, 1)
    ensures BestOf(src, pos, n, period, pos, 0, best)
  {
    hide Different;
    assert Looked(src, pos, n, period, at + 1, 0, pos - period);
    forall x: nat | x + 8 <= pos && Looked(src, pos, n, period, pos, 0, x)
      ensures Wins(src, pos, n, period, at, x)
    {
      assert x <= at ==> Looked(src, pos, n, period, at + 1, 0, x);
    }
  }

  lemma {:induction false} FarBest(src: seq<byte>, pos: nat, n: nat, period: nat, at: nat, split: nat, best: E.Best)
    requires 0 < n <= 8 && pos + n <= |src| && 8 <= period <= Min(pos, 0xffff)
    requires pos <= at + 65535 && split == pos - Min(255, pos) && split + 8 <= pos && best.cost > 2
    requires BestOf(src, pos, n, period, pos, at, best)
    ensures BestOf(src, pos, n, period, pos, pos, E.ScanFar(src, pos, n, at, split, best))
    decreases split - at
  {
    hide PlaceCost, E.Cost;
    if at >= split {
      NoMoreFar(src, pos, n, period, at, best);
    } else {
      FarStep(src, pos, n, period, at, best);
      if src[at] != src[pos] {
        FarBest(src, pos, n, period, at + 1, split, best);
      } else {
        var diff := E.Cost(src, at, pos, n);
        if diff + 2 < best.cost {
          if diff == 0 {
            FarExit(src, pos, n, period, at, E.Best(at, 2));
          } else {
            FarBest(src, pos, n, period, at + 1, split, E.Best(at, diff + 2));
          }
        } else {
          FarBest(src, pos, n, period, at + 1, split, best);
        }
      }
    }
  }

  lemma NoMoreFar(src: seq<byte>, pos: nat, n: nat, period: nat, at: nat, best: E.Best)
    requires 0 < n <= 8 && pos + n <= |src| && 8 <= period <= Min(pos, 0xffff) && at >= pos - Min(255, pos)
    requires BestOf(src, pos, n, period, pos, at, best)
    ensures BestOf(src, pos, n, period, pos, pos, best)
  {
    hide PlaceCost;
  }

  /** One more far place. */
  lemma FarStep(src: seq<byte>, pos: nat, n: nat, period: nat, at: nat, best: E.Best)
    requires 0 < n <= 8 && pos + n <= |src| && 8 <= period <= Min(pos, 0xffff) && at + 255 < pos <= at + 65535
    requires BestOf(src, pos, n, period, pos, at, best)
    ensures var diff := E.Cost(src, at, pos, n);
            if src[at] == src[pos] && diff + 2 < best.cost then BestOf(src, pos, n, period, pos, at + 1, E.Best(at, diff + 2))
            else BestOf(src, pos, n, period, pos, at + 1, best)
  {
    hide E.Cost, Different;
    CostIs(src, at, pos, n);
    assert Looked(src, pos, n, period, pos, at, pos - period);
    assert Wins(src, pos, n, period, best.at, pos - period);
    var diff := E.Cost(src, at, pos, n);
    var b := if src[at] == src[pos] && diff + 2 < best.cost then E.Best(at, diff + 2) else best;
    assert Looked(src, pos, n, period, pos, at + 1, b.at);
    forall x: nat | x + 8 <= pos && Looked(src, pos, n, period, pos, at + 1, x)
      ensures Wins(src, pos, n, period, b.at, x)
    {
      if Looked(src, pos, n, period, pos, at, x) {
        assert Wins(src, pos, n, period, best.at, x);
      } else {
        assert x == at;
      }
    }
  }

  lemma FarExit(src: seq<byte>, pos: nat, n: nat, period: nat, at: nat, best: E.Best)
    requires 0 < n <= 8 && pos + n <= |src| && 8 <= period <= Min(pos, 0xffff) && at + 255 < pos <= at + 65535
    requires BestOf(src, pos, n, period, pos, at + 1, best) && best == E.Best(at, 2)
    ensures BestOf(src, pos, n, period, pos, pos, best)
  {
    hide Different;
    assert Looked(src, pos, n, period, pos, at + 1, pos - period);
    forall x: nat | x + 8 <= pos && Looked(src, pos, n, period, pos, pos, x)
      ensures Wins(src, pos, n, period, at, x)
    {
      assert pos - x <= 255 || x <= at ==> Looked(src, pos, n, period, pos, at + 1, x);
    }
  }

  /** No place in reach costs less than the one that is chosen, and it is the first
      of those that cost the same. */
  lemma BestPattern(src: seq<byte>, pos: nat, n: nat, period: nat)
    requires 0 < n <= 8 && pos + n <= |src| && E.MIN_PERIOD <= period <= Min(pos, E.MAX_PERIOD)
    ensures var b := E.GoodPattern(src, pos, n, period);
            && InReach(src, pos, period, b)
            && forall x: nat | InReach(src, pos, period, x) :: Wins(src, pos, n, period, b, x)
  {
    hide PlaceCost, E.ScanNear, E.ScanFar, E.Cost;
    var same := E.Best(pos - period, E.Cost(src, pos - period, pos, n));
    SameIsBest(src, pos, n, period, same);
    var split := pos - Min(255, pos);
    if same.cost > 1 {
      NearBest(src, pos, n, period, split, same);
      var near := E.ScanNear(src, pos, n, split, same);
      if near.cost > 2 {
        FarBest(src, pos, n, period, pos - Min(65535, pos), split, near);
      } else {
        NearEnough(src, pos, n, period, near);
      }
    } else {
      SameEnough(src, pos, n, period, same);
    }
  }

  lemma SameIsBest(src: seq<byte>, pos: nat, n: nat, period: nat, same: E.Best)
    requires 0 < n <= 8 && pos + n <= |src| && 8 <= period <= Min(pos, 0xffff)
    requires same == E.Best(pos - period, E.Cost(src, pos - period, pos, n))
    ensures BestOf(src, pos, n, period, pos - Min(255, pos), 0, same)
  {
    hide E.Cost, Different;
    CostIs(src, pos - period, pos, n);
  }

  lemma NearEnough(src: seq<byte>, pos: nat, n: nat, period: nat, best: E.Best)
    requires 0 < n <= 8 && pos + n <= |src| && 8 <= period <= Min(pos, 0xffff)
    requires BestOf(src, pos, n, period, pos, 0, best) && best.cost <= 2
    ensures BestOf(src, pos, n, period, pos, pos, best)
  {
    hide Different;
    forall x: nat | x + 8 <= pos && Looked(src, pos, n, period, pos, pos, x)
      ensures Wins(src, pos, n, period, best.at, x)
    {
      assert pos - x <= 255 ==> Looked(src, pos, n, period, pos, 0, x);
    }
  }

  lemma SameEnough(src: seq<byte>, pos: nat, n: nat, period: nat, same: E.Best)
    requires 0 < n <= 8 && pos + n <= |src| && 8 <= period <= Min(pos, 0xffff)
    requires same.at == pos - period && same.cost <= 1 && BestOf(src, pos, n, period, pos - Min(255, pos), 0, same)
    ensures BestOf(src, pos, n, period, pos, pos, same)
  {
    hide Different;
  }

  // ----- The most common bitmaps

  function Uses(ops: seq<E.Op>, b: Bmap): (s: seq<bool>)
    ensures |s| == |ops| && forall i: nat | i < |s| :: s[i] == (ops[i].bmap == b)
  {
    seq(|ops|, i requires 0 <= i < |ops| => ops[i].bmap == b)
  }

  /** A use count is the number of operations with the bitmap. */
  lemma {:induction false} UseCountIs(ops: seq<E.Op>, b: Bmap, k: nat)
    requires k <= |ops|
    ensures E.UseCount(ops[k..], b) == |Trues(Uses(ops, b), k)|
    decreases |ops| - k
  {
    if k < |ops| {
      UseCountIs(ops, b, k + 1);
      TruesStep(Uses(ops, b), k);
    }
  }

  /** Where a bitmap is used first. */
  ghost function FirstUse(ops: seq<E.Op>, b: Bmap): (n: nat)
  {
    if ops == [] || ops[0].bmap == b then 0 else 1 + FirstUse(ops[1..], b)
  }

  lemma {:induction false} FirstUseIs(ops: seq<E.Op>, b: Bmap, m: nat)
    requires m < |ops| && ops[m].bmap == b
    ensures FirstUse(ops, b) <= m && ops[FirstUse(ops, b)].bmap == b
    decreases |ops|
  {
    if ops[0].bmap != b {
      FirstUseIs(ops[1..], b, m - 1);
    }
  }

  /** a is used more often than b, or as often and earlier. */
  ghost predicate Ahead(ops: seq<E.Op>, a: Bmap, b: Bmap)
  {
    var m, n := E.UseCount(ops, a), E.UseCount(ops, b);
    m > n || (m == n && FirstUse(ops, a) < FirstUse(ops, b))
  }

  /** The list after the first k operations: in order, with true counts; and what is
      not in it comes after all that is. */
  ghost predicate Common(ops: seq<E.Op>, k: nat, tops: seq<E.Top>)
    requires k <= |ops|
  {
    |tops| <= BITMAP_COUNT && Tallied(ops, k, tops) && forall m: nat | m < k :: Ranked(ops, tops, m)
  }

  ghost predicate Tallied(ops: seq<E.Op>, k: nat, tops: seq<E.Top>)
  {
    && (forall i: nat, j: nat | i < j < |tops| :: Ahead(ops, tops[i].bmap, tops[j].bmap))
    && (forall i: nat | i < |tops| :: tops[i].usecnt == E.UseCount(ops, tops[i].bmap) && FirstUse(ops, tops[i].bmap) < k)
  }

  /** Where a bitmap with some use count goes. */
  ghost predicate Slot(tops: seq<E.Top>, usecnt: nat, at: nat)
  {
    && at <= |tops| && (forall j: nat | j < at :: tops[j].usecnt >= usecnt)
    && forall j: nat | at <= j < |tops| :: tops[j].usecnt < usecnt
  }

  ghost predicate Ranked(ops: seq<E.Op>, tops: seq<E.Top>, m: nat)
    requires m < |ops|
  {
    E.IsTop(tops, ops[m].bmap) || Behind(ops, tops, ops[m].bmap)
  }

  ghost predicate Behind(ops: seq<E.Op>, tops: seq<E.Top>, b: Bmap)
  {
    |tops| == BITMAP_COUNT && forall i: nat | i < |tops| :: Ahead(ops, tops[i].bmap, b)
  }

  lemma {:induction false} SlotIs(tops: seq<E.Top>, b: Bmap, usecnt: nat, i: nat)
    requires i <= |tops| && forall j: nat | j < i :: tops[j].bmap != b && tops[j].usecnt >= usecnt
    requires forall j: nat | j < |tops| && tops[j].bmap == b :: tops[j].usecnt == usecnt
    requires forall j: nat, k: nat | j < k < |tops| :: tops[j].usecnt >= tops[k].usecnt
    ensures var slot := E.TopSlot(tops, b, usecnt, i);
            && (slot.None? <==> E.IsTop(tops, b))
            && (slot.Some? ==> Slot(tops, usecnt, slot.value))
    decreases |tops| - i
  {
    if i < |tops| && tops[i].bmap != b && tops[i].usecnt >= usecnt {
      SlotIs(tops, b, usecnt, i + 1);
    }
  }

  lemma Falling(ops: seq<E.Op>, k: nat, tops: seq<E.Top>, i: nat, j: nat)
    requires Tallied(ops, k, tops) && i <= j < |tops|
    ensures tops[i].usecnt >= tops[j].usecnt
  {
    hide E.UseCount, FirstUse;
    assert i < j ==> Ahead(ops, tops[i].bmap, tops[j].bmap);
  }

  lemma SlotFor(ops: seq<E.Op>, k: nat, tops: seq<E.Top>, b: Bmap)
    requires Tallied(ops, k, tops)
    ensures var usecnt := E.UseCount(ops, b);
            var slot := E.TopSlot(tops, b, usecnt, 0);
            if slot.None? then E.IsTop(tops, b) else !E.IsTop(tops, b) && Slot(tops, usecnt, slot.value)
  {
    hide E.UseCount, FirstUse, Ahead;
    forall i: nat, j: nat | i < j < |tops|
      ensures tops[i].usecnt >= tops[j].usecnt
    {
      Falling(ops, k, tops, i, j);
    }
    SlotIs(tops, b, E.UseCount(ops, b), 0);
  }

  lemma {:induction false} CommonUpto(ops: seq<E.Op>, k: nat)
    requires k <= |ops|
    ensures Common(ops, k, E.FindTops(ops, k))
  {
    hide E.UseCount, E.InsertTop, Ranked;
    if k > 0 {
      CommonUpto(ops, k - 1);
      InsertCommon(ops, k, E.FindTops(ops, k - 1));
    }
  }

  lemma InsertCommon(ops: seq<E.Op>, k: nat, tops: seq<E.Top>)
    requires 0 < k <= |ops| && Common(ops, k - 1, tops)
    ensures Common(ops, k, E.InsertTop(tops, ops[k - 1].bmap, E.UseCount(ops, ops[k - 1].bmap)))
  {
    hide E.UseCount, E.TopSlot, Ranked, E.IsTop, Tallied, Slot, Shifted;
    var b := ops[k - 1].bmap;
    var usecnt := E.UseCount(ops, b);
    SlotFor(ops, k - 1, tops, b);
    var slot := E.TopSlot(tops, b, usecnt, 0);
    MoreSeen(ops, k, tops);
    if slot.None? {
      InDictionary(ops, tops, k - 1);
    } else if slot.value == BITMAP_COUNT {
      NoPlace(ops, k, tops, b);
    } else {
      UsedFirst(ops, k, tops, b, slot.value);
      var r := E.InsertTop(tops, b, usecnt);
      assert slot.value <= |tops|;
      ShiftedBy(tops, r, slot.value, E.Top(b, usecnt));
      Inserted(ops, k, tops, b, slot.value, r);
      forall m: nat | m < k
        ensures Ranked(ops, r, m)
      {
        StillRanked(ops, k, tops, b, slot.value, r, m);
      }
    }
  }

  lemma MoreSeen(ops: seq<E.Op>, k: nat, tops: seq<E.Top>)
    requires k > 0 && Tallied(ops, k - 1, tops)
    ensures Tallied(ops, k, tops)
  {
  }

  lemma InDictionary(ops: seq<E.Op>, tops: seq<E.Top>, m: nat)
    requires m < |ops| && E.IsTop(tops, ops[m].bmap)
    ensures Ranked(ops, tops, m)
  {
  }

  /** All the counts in the list are as large; and it was used earlier, or was left out
      before. */
  lemma NoPlace(ops: seq<E.Op>, k: nat, tops: seq<E.Top>, b: Bmap)
    requires 0 < k <= |ops| && Common(ops, k - 1, tops) && b == ops[k - 1].bmap
    requires !E.IsTop(tops, b) && Slot(tops, E.UseCount(ops, b), BITMAP_COUNT)
    ensures Ranked(ops, tops, k - 1)
  {
    hide E.UseCount, E.IsTop, FirstUse;
    FirstUseIs(ops, b, k - 1);
    var m := FirstUse(ops, b);
    if m < k - 1 {
      assert Ranked(ops, tops, m);
    } else {
      forall i: nat | i < |tops|
        ensures Ahead(ops, tops[i].bmap, b)
      {
        assert tops[i].usecnt >= E.UseCount(ops, b);
      }
      assert Behind(ops, tops, b);
    }
  }

  /** Where there is a place for a bitmap, this is its first use. */
  lemma UsedFirst(ops: seq<E.Op>, k: nat, tops: seq<E.Top>, b: Bmap, at: nat)
    requires 0 < k <= |ops| && Common(ops, k - 1, tops) && b == ops[k - 1].bmap
    requires !E.IsTop(tops, b) && Slot(tops, E.UseCount(ops, b), at) && at < BITMAP_COUNT
    ensures FirstUse(ops, b) == k - 1
  {
    hide E.UseCount, E.IsTop, FirstUse, Ahead, Behind;
    FirstUseIs(ops, b, k - 1);
    var m := FirstUse(ops, b);
    if m < k - 1 {
      assert Ranked(ops, tops, m);
      BehindCount(ops, k - 1, tops, b, at);
    }
  }

  lemma BehindCount(ops: seq<E.Op>, k: nat, tops: seq<E.Top>, b: Bmap, i: nat)
    requires Tallied(ops, k, tops) && Behind(ops, tops, b) && i < BITMAP_COUNT
    ensures |tops| == BITMAP_COUNT && tops[i].usecnt >= E.UseCount(ops, b)
  {
    hide E.UseCount, FirstUse;
    assert Ahead(ops, tops[i].bmap, b);
  }

  /** r is the list with one more entry, and the last one dropped if there is no room. */
  ghost predicate Shifted(tops: seq<E.Top>, r: seq<E.Top>, at: nat, t: E.Top)
  {
    && at < |r| == Min(|tops| + 1, BITMAP_COUNT) && r[at] == t
    && forall i: nat | i < |r| && i != at :: r[i] == tops[if i < at then i else i - 1]
  }

  lemma ShiftedBy(tops: seq<E.Top>, r: seq<E.Top>, at: nat, t: E.Top)
    requires at <= |tops| <= BITMAP_COUNT && at < BITMAP_COUNT
    requires var all := tops[..at] + [t] + tops[at..]; r == all[..Min(|all|, BITMAP_COUNT)]
    ensures Shifted(tops, r, at, t)
  {
  }

  /** How the new entry compares with the others. */
  lemma NewAhead(ops: seq<E.Op>, k: nat, tops: seq<E.Top>, b: Bmap, at: nat, i: nat)
    requires k > 0 && Tallied(ops, k - 1, tops) && Slot(tops, E.UseCount(ops, b), at) && FirstUse(ops, b) == k - 1 && i < |tops|
    ensures if i < at then Ahead(ops, tops[i].bmap, b) else Ahead(ops, b, tops[i].bmap)
  {
    hide E.UseCount, FirstUse;
  }

  lemma Inserted(ops: seq<E.Op>, k: nat, tops: seq<E.Top>, b: Bmap, at: nat, r: seq<E.Top>)
    requires 0 < k && Tallied(ops, k - 1, tops) && Slot(tops, E.UseCount(ops, b), at) && FirstUse(ops, b) == k - 1
    requires Shifted(tops, r, at, E.Top(b, E.UseCount(ops, b)))
    ensures Tallied(ops, k, r)
  {
    hide E.UseCount, FirstUse, Ahead, Slot;
    forall i: nat, j: nat | i < j < |r|
      ensures Ahead(ops, r[i].bmap, r[j].bmap)
    {
      if i == at {
        NewAhead(ops, k, tops, b, at, j - 1);
      } else if j == at {
        NewAhead(ops, k, tops, b, at, i);
      } else {
        assert r[i] == tops[if i < at then i else i - 1] && r[j] == tops[if j < at then j else j - 1];
      }
    }
  }

  lemma StillRanked(ops: seq<E.Op>, k: nat, tops: seq<E.Top>, b: Bmap, at: nat, r: seq<E.Top>, m: nat)
    requires 0 < k <= |ops| && m < k && |tops| <= BITMAP_COUNT && Tallied(ops, k - 1, tops) && FirstUse(ops, b) == k - 1
    requires (ops[m].bmap == b || Ranked(ops, tops, m)) && Slot(tops, E.UseCount(ops, b), at)
    requires Shifted(tops, r, at, E.Top(b, E.UseCount(ops, b))) && (m == k - 1 ==> ops[m].bmap == b)
    ensures Ranked(ops, r, m)
  {
    hide E.UseCount, Tallied, Slot, Ahead, FirstUse;
    if ops[m].bmap == b {
      assert r[at].bmap == b;
    } else if E.IsTop(tops, ops[m].bmap) {
      KeptOrLast(ops, k, tops, b, at, r, m);
    } else {
      assert Behind(ops, r, ops[m].bmap) by { StillBehind(ops, k, tops, b, at, r, ops[m].bmap); }
    }
  }

  lemma {:induction false} AheadTwice(ops: seq<E.Op>, a: Bmap, b: Bmap, c: Bmap)
    requires Ahead(ops, a, b) && Ahead(ops, b, c)
    ensures Ahead(ops, a, c)
  {
    hide E.UseCount, FirstUse;
  }

  lemma KeptOrLast(ops: seq<E.Op>, k: nat, tops: seq<E.Top>, b: Bmap, at: nat, r: seq<E.Top>, m: nat)
    requires 0 < k <= |ops| && m < |ops| && |tops| <= BITMAP_COUNT && Tallied(ops, k - 1, tops) && FirstUse(ops, b) == k - 1
    requires Slot(tops, E.UseCount(ops, b), at) && Shifted(tops, r, at, E.Top(b, E.UseCount(ops, b))) && E.IsTop(tops, ops[m].bmap)
    ensures Ranked(ops, r, m)
  {
    hide E.UseCount, Ahead, FirstUse, Slot;
    var j: nat :| j < |tops| && tops[j].bmap == ops[m].bmap;
    var n := if j < at then j else j + 1;
    if n < |r| {
      assert r[n].bmap == ops[m].bmap;
    } else {
      forall i: nat | i < |r|
        ensures Ahead(ops, r[i].bmap, tops[j].bmap)
      {
        if i == at {
          NewAhead(ops, k, tops, b, at, j);
        } else {
          assert r[i] == tops[if i < at then i else i - 1];
        }
      }
      assert Behind(ops, r, ops[m].bmap);
    }
  }

  lemma StillBehind(ops: seq<E.Op>, k: nat, tops: seq<E.Top>, b: Bmap, at: nat, r: seq<E.Top>, c: Bmap)
    requires 0 < k && |tops| == BITMAP_COUNT && Tallied(ops, k - 1, tops) && FirstUse(ops, b) == k - 1 && Behind(ops, tops, c)
    requires Slot(tops, E.UseCount(ops, b), at) && Shifted(tops, r, at, E.Top(b, E.UseCount(ops, b)))
    ensures Behind(ops, r, c)
  {
    hide E.UseCount, Ahead, FirstUse, Slot;
    NewAhead(ops, k, tops, b, at, at);
    AheadTwice(ops, b, tops[at].bmap, c);
    forall i: nat | i < |r|
      ensures Ahead(ops, r[i].bmap, c)
    {
      assert i != at ==> r[i] == tops[if i < at then i else i - 1];
    }
  }

  /** The dictionary has the bitmaps that are used most often, in falling order, and of
      those used as often the ones that came first; when there are up to twelve, it has
      all of them. */
  lemma DictionaryIsBest(ops: seq<E.Op>)
    ensures var tops := E.FindTops(ops, |ops|);
            && (forall i: nat, j: nat | i < j < |tops| :: Ahead(ops, tops[i].bmap, tops[j].bmap))
            && forall m: nat | m < |ops| ::
                 E.IsTop(tops, ops[m].bmap) || (|tops| == 12 && forall i: nat | i < 12 :: Ahead(ops, tops[i].bmap, ops[m].bmap))
  {
    hide E.UseCount, E.FindTops, Ahead, E.IsTop;
    CommonUpto(ops, |ops|);
    var tops := E.FindTops(ops, |ops|);
    forall m: nat | m < |ops|
      ensures E.IsTop(tops, ops[m].bmap) || (|tops| == 12 && forall i: nat | i < 12 :: Ahead(ops, tops[i].bmap, ops[m].bmap))
    {
      assert Ranked(ops, tops, m);
    }
  }

  // ----- The nibbles

  /** A bitmap in the dictionary has the number of its place there, the others that of
      their byte counts; and only the others are listed. */
  lemma NumberOf(tops: seq<E.Top>, b: Bmap)
    requires |tops| <= BITMAP_COUNT && b.periodBytecnt <= MAX_PERIOD_BYTECNT
    ensures var n := ByteVal(E.NumFor(tops, b));
            if E.IsTop(tops, b) then BITMAP_BASE <= n < BITMAP_BASE + |tops| && tops[n - BITMAP_BASE].bmap == b else n == b.periodBytecnt
    ensures forall op: E.Op :: op.bmap == b ==> |E.Meta2([op], tops)| == if E.IsTop(tops, b) then 0 else 1
  {
    hide ByteVal, ToByte;
    if E.IsTop(tops, b) {
      var i: nat :| i < |tops| && tops[i].bmap == b;
      var all := E.TopBitmaps(tops);
      assert all[i] == b;
      EarlyIndex(all, b, i);
      ByteRoundTrip(E.FirstIndex(all, b) + BITMAP_BASE);
    } else {
      ByteRoundTrip(b.periodBytecnt);
    }
    forall op: E.Op | op.bmap == b
      ensures |E.Meta2([op], tops)| == if E.IsTop(tops, b) then 0 else 1
    {
      assert [op][1..] == [];
    }
  }

  lemma {:induction false} EarlyIndex(all: seq<Bmap>, b: Bmap, i: nat)
    requires i < |all| && all[i] == b
    ensures E.FirstIndex(all, b) <= i
    decreases |all|
  {
    if all[0] != b {
      EarlyIndex(all[1..], b, i - 1);
    }
  }

  /** A run goes as far as the number is the same, and takes as few nibbles as it can:
      one for each, or the number, a mark and a count. */
  lemma RunsAreShort(nums: seq<byte>)
    requires nums != [] && forall i: nat | i < |nums| :: nums[i] < 15
    ensures var run := E.Run(nums);
            && (run == |nums| || nums[run] != nums[0])
            && |E.RunNibbles(nums[0], run)| == if run < 4 then run else 3 + (run - 4) / 15
  {
    LongestRun(nums);
    if E.Run(nums) > 3 {
      CountSize(E.Run(nums) - 4);
    }
  }

  lemma {:induction false} LongestRun(nums: seq<byte>)
    requires nums != []
    ensures E.Run(nums) == |nums| || nums[E.Run(nums)] != nums[0]
    decreases |nums|
  {
    if |nums| > 1 && nums[1] == nums[0] {
      LongestRun(nums[1..]);
    }
  }

  lemma {:induction false} CountSize(n: nat)
    ensures |E.CountNibbles(n)| == 1 + n / 15
  {
    if n >= 15 {
      CountSize(n - 15);
    }
  }
}
