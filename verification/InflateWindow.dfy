/** The sliding window of the inflater and the ways it copies matches
    (lib/zlib_inflate/inflate.c:102-132, 652-683 and
    lib/zlib_inflate/inffast.c:200-305). All of them produce what section 3.2.3
    of RFC 1951 asks for: a copy, one byte at a time, from `dist` bytes back in
    everything that was ever output. */
module InflateWindow {
  import opened Prelude
  import Bits = BitStrings

  // ----- The one-byte-at-a-time copy

  function CopyBack(h: seq<byte>, dist: nat, len: nat): (r: seq<byte>)
    requires 0 < dist <= |h|
    ensures |r| == |h| + len
    decreases len
  {
    if len == 0 then h else CopyBack(h + [h[|h| - dist]], dist, len - 1)
  }

  /** r extends h, and every new byte is the one dist places before it. */
  ghost predicate IsCopy(h: seq<byte>, dist: nat, r: seq<byte>)
  {
    && 0 < dist <= |h| <= |r|
    && r[..|h|] == h
    && forall j: nat | |h| <= j < |r| :: r[j] == r[j - dist]
  }

  /** The plain copy is the only such extension. */
  lemma {:induction false} CopyUnique(h: seq<byte>, dist: nat, r: seq<byte>)
    requires IsCopy(h, dist, r)
    ensures r == CopyBack(h, dist, |r| - |h|)
    decreases |r| - |h|
  {
    if |r| > |h| {
      var h' := h + [h[|h| - dist]];
      assert r[|h|] == r[|h| - dist] == h[|h| - dist];
      assert r[..|h'|] == h';
      CopyUnique(h', dist, r);
    } else {
      assert r == r[..|h|];
    }
  }

  // ----- The window

  /** The place of the byte that was output k bytes before the end. */
  function Back(write: nat, wsize: nat, k: nat): (i: nat)
    requires 0 < k <= wsize && write < wsize
    ensures i < wsize
  {
    if k <= write then write - k else wsize + write - k
  }

  class Window {
    const data: array<byte>
    var write: nat
    var whave: nat

    ghost predicate Valid()
      reads this
    {
      && write < data.Length && whave <= data.Length
      && (whave < data.Length ==> write == whave)
    }

    /** The window holds the end of the history, as much as there is room for. */
    ghost predicate Holds(hist: seq<byte>)
      requires Valid()
      reads this, data
    {
      HeldBy(data[..], write, whave, hist)
    }

    constructor (wbits: nat)
      requires 8 <= wbits <= 15
      ensures Valid() && Holds([]) && fresh(data) && data.Length == Bits.Pow2(wbits)
    {
      var size := 1;
      for i := 0 to wbits
        invariant size == Bits.Pow2(i)
      {
        size := 2 * size;
      }
      data := new byte[size];
      write, whave := 0, 0;
    }

    method Store(at: nat, bytes: seq<byte>)
      requires at + |bytes| <= data.Length
      modifies data
      ensures forall i: nat | i < data.Length :: data[i] == if at <= i < at + |bytes| then bytes[i - at] else old(data[i])
    {
      forall i | 0 <= i < |bytes| {
        data[at + i] := bytes[i];
      }
    }

    /** zlib_updatewindow: `out` is what this call of inflate() has output. */
    method Update(out: seq<byte>, ghost hist: seq<byte>)
      requires Valid() && Holds(hist)
      modifies this, data
      ensures Valid() && Holds(hist + out)
    {
      hide HeldBy;
      var wsize := data.Length;
      var copy := |out|;
      if copy >= wsize {
        Store(0, out[copy - wsize..]);
        write := 0;
        whave := wsize;
        Replaced(data[..], hist, out);
      } else {
        ghost var write0, whave0, before := write, whave, data[..];
        var dist := if wsize - write > copy then copy else wsize - write;
        Store(write, out[..dist]);
        copy := copy - dist;
        if copy > 0 {
          Store(0, out[|out| - copy..]);
          write := copy;
          whave := wsize;
          Wrapped(before, data[..], write0, whave0, hist, out);
        } else {
          write := write + dist;
          if write == wsize {
            write := 0;
          }
          if whave < wsize {
            whave := whave + dist;
          }
          Advanced(before, data[..], write0, whave0, hist, out);
        }
      }
    }
  }

  /** Any number of calls of inflate(), each of which updates the window with what
      it has output. */
  method UpdateAll(w: Window, outs: seq<seq<byte>>)
    requires w.Valid() && w.Holds([])
    modifies w, w.data
    ensures w.Valid() && w.Holds(Concat(outs))
  {
    hide HeldBy;
    for k := 0 to |outs|
      invariant w.Valid() && w.Holds(Concat(outs[..k]))
    {
      w.Update(outs[k], Concat(outs[..k]));
      ConcatStep(outs, k);
    }
    assert outs[..|outs|] == outs;
  }

  /** The window before an update, as a sequence. */
  ghost predicate HeldBy(data: seq<byte>, write: nat, whave: nat, hist: seq<byte>)
  {
    && write < |data| && whave == (if |hist| < |data| then |hist| else |data|)
    && (whave < |data| ==> write == whave)
    && forall k: nat | 0 < k <= whave :: data[Back(write, |data|, k)] == hist[|hist| - k]
  }

  lemma Replaced(after: seq<byte>, hist: seq<byte>, out: seq<byte>)
    requires 0 < |after| <= |out| && after == out[|out| - |after|..]
    ensures HeldBy(after, 0, |after|, hist + out)
  {
  }

  lemma Wrapped(before: seq<byte>, after: seq<byte>, write: nat, whave: nat, hist: seq<byte>, out: seq<byte>)
    requires HeldBy(before, write, whave, hist) && |after| == |before|
    requires |before| - write < |out| < |before|
    requires forall i: nat | i < |before| ::
               after[i] == if i < write + |out| - |before| then out[|before| - write + i]
                           else if i >= write then out[i - write] else before[i]
    ensures HeldBy(after, write + |out| - |before|, |before|, hist + out)
  {
    var wsize, w := |before|, write + |out| - |before|;
    var total := hist + out;
    forall k: nat | 0 < k <= wsize
      ensures after[Back(w, wsize, k)] == total[|total| - k]
    {
      if k > |out| {
        var j := k - |out|;
        assert Back(w, wsize, k) == Back(write, wsize, j);
        assert before[Back(write, wsize, j)] == hist[|hist| - j];
      }
    }
  }

  lemma Advanced(before: seq<byte>, after: seq<byte>, write: nat, whave: nat, hist: seq<byte>, out: seq<byte>)
    requires HeldBy(before, write, whave, hist) && |after| == |before|
    requires write + |out| <= |before| && |out| < |before|
    requires forall i: nat | i < |before| :: after[i] == if write <= i < write + |out| then out[i - write] else before[i]
    ensures HeldBy(after, if write + |out| == |before| then 0 else write + |out|,
                   if whave < |before| then whave + |out| else whave, hist + out)
  {
    var wsize, w := |before|, if write + |out| == |before| then 0 else write + |out|;
    var have := if whave < wsize then whave + |out| else whave;
    var total := hist + out;
    forall k: nat | 0 < k <= have
      ensures after[Back(w, wsize, k)] == total[|total| - k]
    {
      if k > |out| {
        var j := k - |out|;
        assert Back(w, wsize, k) == Back(write, wsize, j);
        assert before[Back(write, wsize, j)] == hist[|hist| - j];
      }
    }
  }

  // ----- Copying a match

  lemma Extend(h: seq<byte>, dist: nat, r: seq<byte>, x: byte)
    requires IsCopy(h, dist, r) && x == r[|r| - dist]
    ensures IsCopy(h, dist, r + [x])
  {
    assert (r + [x])[..|h|] == r[..|h|];
  }

  /** Everything output so far, when p bytes of the buffer are in use. */
  ghost function Full(hist: seq<byte>, out: array<byte>, p: nat): (s: seq<byte>)
    requires p <= out.Length
    reads out
  {
    hist + out[..p]
  }

  /** Where a run of n bytes is copied from: a stretch of the window that holds
      the right part of the history, or the output buffer itself. */
  ghost predicate Source(w: Window, fromWindow: bool, from: int, p: nat, n: nat, dist: nat, hist: seq<byte>)
    reads w, w.data
  {
    if fromWindow then
      && p <= dist <= |hist| + p && n <= dist - p && 0 <= from && from + n <= w.data.Length
      && w.data[from..from + n] == hist[|hist| + p - dist..|hist| + p - dist + n]
    else 0 < dist && 0 <= from == p - dist
  }

  method CopyByte(w: Window, out: array<byte>, p: nat, fromWindow: bool, from: int, n: nat, dist: nat, ghost hist: seq<byte>, ghost h: seq<byte>)
    requires 0 < n && p + n <= out.Length && out != w.data && Source(w, fromWindow, from, p, n, dist, hist)
    requires IsCopy(h, dist, Full(hist, out, p))
    modifies out
    ensures IsCopy(h, dist, Full(hist, out, p + 1)) && Source(w, fromWindow, from + 1, p + 1, n - 1, dist, hist)
    ensures forall i | p < i < out.Length :: out[i] == old(out[i])
  {
    ghost var r := Full(hist, out, p);
    var x := if fromWindow then w.data[from] else out[from];
    assert x == r[|r| - dist] by {
      if fromWindow {
        assert w.data[from] == w.data[from..from + n][0];
      }
    }
    out[p] := x;
    Extend(h, dist, r, x);
    assert Full(hist, out, p + 1) == r + [x];
    if fromWindow {
      assert w.data[from + 1..from + n] == w.data[from..from + n][1..];
    }
  }

  /** A do-while loop over n bytes, as in the MATCH state and inflate_fast(). */
  method CopyRun(w: Window, out: array<byte>, p: nat, fromWindow: bool, from: int, n: nat, dist: nat, ghost hist: seq<byte>, ghost h: seq<byte>)
    requires p + n <= out.Length && out != w.data && Source(w, fromWindow, from, p, n, dist, hist)
    requires IsCopy(h, dist, Full(hist, out, p))
    modifies out
    ensures IsCopy(h, dist, Full(hist, out, p + n))
    ensures forall i | p + n <= i < out.Length :: out[i] == old(out[i])
  {
    hide IsCopy, Source, Full;
    for i := 0 to n
      invariant Source(w, fromWindow, from + i, p + i, n - i, dist, hist) && IsCopy(h, dist, Full(hist, out, p + i))
      invariant forall j | p + i <= j < out.Length :: out[j] == old(out[j])
    {
      CopyByte(w, out, p + i, fromWindow, from + i, n - i, dist, hist, h);
    }
  }

  /** The same, three bytes at a time (inffast.c:248-258). */
  method CopyUnrolled(w: Window, out: array<byte>, p: nat, fromWindow: bool, from: int, n: nat, dist: nat, ghost hist: seq<byte>, ghost h: seq<byte>)
    requires p + n <= out.Length && out != w.data && Source(w, fromWindow, from, p, n, dist, hist)
    requires IsCopy(h, dist, Full(hist, out, p))
    modifies out
    ensures IsCopy(h, dist, Full(hist, out, p + n))
    ensures forall i | p + n <= i < out.Length :: out[i] == old(out[i])
  {
    hide IsCopy, Source, Full;
    var i, len := 0, n;
    while len > 2
      invariant 0 <= i && i + len == n
      invariant Source(w, fromWindow, from + i, p + i, len, dist, hist) && IsCopy(h, dist, Full(hist, out, p + i))
      invariant forall j | p + i <= j < out.Length :: out[j] == old(out[j])
    {
      CopyByte(w, out, p + i, fromWindow, from + i, len, dist, hist, h);
      CopyByte(w, out, p + i + 1, fromWindow, from + i + 1, len - 1, dist, hist, h);
      CopyByte(w, out, p + i + 2, fromWindow, from + i + 2, len - 2, dist, hist, h);
      i := i + 3;
      len := len - 3;
    }
    if len > 0 {
      CopyByte(w, out, p + i, fromWindow, from + i, len, dist, hist, h);
      if len > 1 {
        CopyByte(w, out, p + i + 1, fromWindow, from + i + 1, len - 1, dist, hist, h);
      }
    }
  }

  /** A stretch of the window, as long as it does not wrap around. */
  lemma WindowSource(w: Window, from: nat, p: nat, n: nat, dist: nat, hist: seq<byte>)
    requires w.Valid() && w.Holds(hist) && p < dist <= w.whave + p
    requires from == Back(w.write, w.data.Length, dist - p)
    requires n <= (if dist - p > w.write then dist - p - w.write else dist - p)
    ensures Source(w, true, from, p, n, dist, hist)
  {
    var k, start := dist - p, |hist| + p - dist;
    var s, t := w.data[from..from + n], hist[start..start + n];
    forall i: nat | i < n
      ensures s[i] == t[i]
    {
      assert Back(w.write, w.data.Length, k - i) == from + i;
      assert hist[|hist| - (k - i)] == t[i];
    }
  }

  lemma OutputSource(w: Window, p: nat, n: nat, dist: nat, hist: seq<byte>)
    requires 0 < dist <= p
    ensures Source(w, false, p - dist, p, n, dist, hist)
  {
  }

  // ----- The MATCH state of inflate()

  method MatchStep(w: Window, out: array<byte>, p: nat, offset: nat, length: nat, ghost hist: seq<byte>) returns (copy: nat)
    requires w.Valid() && w.Holds(hist) && out != w.data && p < out.Length && length > 0
    requires 0 < offset <= w.whave + p
    modifies out
    ensures 0 < copy <= length && p + copy <= out.Length
    ensures Full(hist, out, p + copy) == CopyBack(hist + old(out[..p]), offset, copy)
    ensures forall i | p + copy <= i < out.Length :: out[i] == old(out[i])
  {
    ghost var h := Full(hist, out, p);
    WholeCopy(h, offset);
    assert 0 < offset <= |h|;
    hide CopyBack, Source, IsCopy, HeldBy;
    var fromWindow, from: int;
    copy := p;
    if offset > copy {
      copy := offset - copy;
      fromWindow := true;
      if copy > w.write {
        copy := copy - w.write;
        from := w.data.Length - copy;
      } else {
        from := w.write - copy;
      }
      if copy > length {
        copy := length;
      }
    } else {
      fromWindow := false;
      from := p - offset;
      copy := length;
    }
    if copy > out.Length - p {
      copy := out.Length - p;
    }
    if fromWindow {
      WindowSource(w, from, p, copy, offset, hist);
    } else {
      OutputSource(w, p, copy, offset, hist);
    }
    CopyRun(w, out, p, fromWindow, from, copy, offset, hist, h);
    CopyUnique(h, offset, Full(hist, out, p + copy));
  }

  lemma {:induction false} CopyBackSplit(h: seq<byte>, dist: nat, a: nat, b: nat)
    requires 0 < dist <= |h|
    ensures CopyBack(CopyBack(h, dist, a), dist, b) == CopyBack(h, dist, a + b)
    decreases a
  {
    if a > 0 {
      CopyBackSplit(h + [h[|h| - dist]], dist, a - 1, b);
    }
  }

  /** Staying in the MATCH state until the match or the buffer is used up copies
      as much of the match as fits. */
  method Match(w: Window, out: array<byte>, p: nat, offset: nat, length: nat, ghost hist: seq<byte>) returns (q: nat)
    requires w.Valid() && w.Holds(hist) && out != w.data && p <= out.Length && 0 < offset <= w.whave + p
    modifies out
    ensures q == (if length <= out.Length - p then p + length else out.Length)
    ensures Full(hist, out, q) == CopyBack(hist + old(out[..p]), offset, q - p)
  {
    q := p;
    var left := length;
    ghost var h := Full(hist, out, p);
    while left > 0 && q < out.Length
      invariant p <= q <= out.Length && left >= 0 && q - p + left == length
      invariant Full(hist, out, q) == CopyBack(h, offset, q - p)
      decreases left
    {
      ghost var before := Full(hist, out, q);
      assert hist + out[..q] == before;
      var copy := MatchStep(w, out, q, offset, left, hist);
      CopyBackSplit(h, offset, q - p, copy);
      q := q + copy;
      left := left - copy;
    }
  }

  // ----- The copies of inflate_fast()

  /** The stretch of the window at `from`, if the match is longer than it. */
  method HeadRun(w: Window, out: array<byte>, p: nat, from: nat, op: nat, len: nat, dist: nat, ghost hist: seq<byte>, ghost h: seq<byte>)
    returns (q: nat, left: nat, moved: bool)
    requires p + len <= out.Length && out != w.data && Source(w, true, from, p, Min(op, len), dist, hist)
    requires IsCopy(h, dist, Full(hist, out, p))
    modifies out
    ensures q + left == p + len && moved == (op < len) && q == (if moved then p + op else p)
    ensures IsCopy(h, dist, Full(hist, out, q))
    ensures !moved ==> Source(w, true, from, q, left, dist, hist)
  {
    hide IsCopy, Source, Full;
    q, left, moved := p, len, op < len;
    if moved {
      left := left - op;
      CopyRun(w, out, q, true, from, op, dist, hist, h);
      q := q + op;
    }
  }

  /** The three layouts: the window ends at its last byte, wraps around, or lies
      in one stretch (inffast.c:213-247). */
  method HeadRuns(w: Window, out: array<byte>, p: nat, dist: nat, len: nat, ghost hist: seq<byte>, ghost h: seq<byte>)
    returns (q: nat, left: nat, moved: bool, from: nat)
    requires w.Valid() && w.Holds(hist) && out != w.data && p + len <= out.Length
    requires p < dist <= w.whave + p && IsCopy(h, dist, Full(hist, out, p))
    modifies out
    ensures q + left == p + len
    ensures IsCopy(h, dist, Full(hist, out, q))
    ensures if moved then dist <= q else Source(w, true, from, q, left, dist, hist)
  {
    hide Source, IsCopy, Full, w.Holds;
    var wsize, write, op := w.data.Length, w.write, dist - p;
    if write == 0 {
      from := wsize - op;
      WindowSource(w, from, p, Min(op, len), dist, hist);
      q, left, moved := HeadRun(w, out, p, from, op, len, dist, hist, h);
    } else if write < op {
      from := wsize + write - op;
      op := op - write;
      WindowSource(w, from, p, Min(op, len), dist, hist);
      q, left, moved := HeadRun(w, out, p, from, op, len, dist, hist, h);
      if moved {
        from := 0;
        WindowSource(w, from, q, Min(write, left), dist, hist);
        q, left, moved := HeadRun(w, out, q, from, write, left, dist, hist, h);
      }
    } else {
      from := write - op;
      WindowSource(w, from, p, Min(op, len), dist, hist);
      q, left, moved := HeadRun(w, out, p, from, op, len, dist, hist, h);
    }
  }

  /** Copies that start in the window (inffast.c:201-259). */
  method FastFromWindow(w: Window, out: array<byte>, p: nat, dist: nat, len: nat, ghost hist: seq<byte>)
    requires w.Valid() && w.Holds(hist) && out != w.data && p + len <= out.Length
    requires p < dist <= w.whave + p
    modifies out
    ensures Full(hist, out, p + len) == CopyBack(hist + old(out[..p]), dist, len)
  {
    ghost var h := Full(hist, out, p);
    WholeCopy(h, dist);
    assert 0 < dist <= |h|;
    hide CopyBack, Source, IsCopy, w.Holds;
    var q, left, moved, from := HeadRuns(w, out, p, dist, len, hist, h);
    if moved {
      OutputSource(w, q, left, dist, hist);
      CopyUnrolled(w, out, q, false, q - dist, left, dist, hist, h);
    } else {
      CopyUnrolled(w, out, q, true, from, left, dist, hist, h);
    }
    CopyUnique(h, dist, Full(hist, out, p + len));
  }

  lemma WholeCopy(h: seq<byte>, dist: nat)
    requires 0 < dist <= |h|
    ensures IsCopy(h, dist, h)
  {
  }

  /** Two bytes at a time: both are read before either is written. */
  method CopyPair(out: array<byte>, p: nat, x: byte, y: byte, dist: nat, ghost hist: seq<byte>, ghost h: seq<byte>)
    requires p + 2 <= out.Length && IsCopy(h, dist, Full(hist, out, p))
    requires var r := Full(hist, out, p);
             x == r[|r| - dist] && y == (r + [x])[|r| + 1 - dist]
    modifies out
    ensures IsCopy(h, dist, Full(hist, out, p + 2))
    ensures out[p] == x && out[p + 1] == y && out[..p] == old(out[..p])
  {
    ghost var r := Full(hist, out, p);
    Extend(h, dist, r, x);
    Extend(h, dist, r + [x], y);
    out[p], out[p + 1] := x, y;
    assert Full(hist, out, p + 2) == r + [x] + [y];
  }

  /** Copies within the output buffer (inffast.c:260-305). Whether one byte is
      copied first depends on the alignment of the address; `stray` is the byte
      before the buffer, which is read but not used when dist and p are 1. */
  method FastFromOutput(w: Window, out: array<byte>, start: nat, dist: nat, length: nat, even: bool, stray: byte, ghost hist: seq<byte>)
    requires out != w.data && start + length <= out.Length && 0 < dist <= start && length >= 3
    modifies out
    ensures Full(hist, out, start + length) == CopyBack(hist + old(out[..start]), dist, length)
  {
    ghost var h := Full(hist, out, start);
    WholeCopy(h, dist);
    hide CopyBack, IsCopy, Source;
    var p, from, len := start, start - dist, length;
    if even {
      OutputSource(w, p, 1, dist, hist);
      CopyByte(w, out, p, false, from, 1, dist, hist, h);
      p, from, len := p + 1, from + 1, len - 1;
    }
    WordsOrPattern(out, p, from, len, dist, stray, hist, h);
    CopyUnique(h, dist, Full(hist, out, start + length));
  }

  method WordsOrPattern(out: array<byte>, start: nat, first: nat, len: nat, dist: nat, stray: byte, ghost hist: seq<byte>, ghost h: seq<byte>)
    requires start + len <= out.Length && 0 < dist && first + dist == start && IsCopy(h, dist, Full(hist, out, start)) && len >= 2
    modifies out
    ensures IsCopy(h, dist, Full(hist, out, start + len))
  {
    hide IsCopy, Full;
    var p, from := start, first;
    if dist > 2 {
      p, from := CopyWords(out, p, from, len, dist, hist, h);
    } else {
      p := CopyPattern(out, p, len, dist, stray, hist, h);
    }
    if len % 2 == 1 {
      LastByte(out, p, from, len, dist, hist, h);
    }
  }

  method CopyWords(out: array<byte>, start: nat, first: nat, len: nat, dist: nat, ghost hist: seq<byte>, ghost h: seq<byte>) returns (p: nat, from: nat)
    requires start + len <= out.Length && dist > 2 && first + dist == start && IsCopy(h, dist, Full(hist, out, start)) && len >= 2
    modifies out
    ensures p == start + len / 2 * 2 && from + dist == p && IsCopy(h, dist, Full(hist, out, p))
  {
    hide IsCopy;
    p, from := start, first;
    var loops := len / 2;
    while loops > 0
      invariant p == start + (len / 2 - loops) * 2 && from + dist == p && loops >= 0
      invariant IsCopy(h, dist, Full(hist, out, p))
    {
      var x, y := out[from], out[from + 1];
      CopyPair(out, p, x, y, dist, hist, h);
      p, from, loops := p + 2, from + 2, loops - 1;
    }
  }

  /** Copies at distance 1 or 2 repeat the last byte or the last two. */
  method CopyPattern(out: array<byte>, start: nat, len: nat, dist: nat, stray: byte, ghost hist: seq<byte>, ghost h: seq<byte>) returns (p: nat)
    requires start + len <= out.Length && 1 <= dist <= 2 && dist <= start && IsCopy(h, dist, Full(hist, out, start)) && len >= 2
    modifies out
    ensures p == start + len / 2 * 2 && IsCopy(h, dist, Full(hist, out, p))
    ensures out[start - dist] == old(out[start - dist])
    ensures out[start - dist] == out[p - dist]
  {
    hide IsCopy;
    var x, y := if start >= 2 then out[start - 2] else stray, out[start - 1];
    if dist == 1 {
      x := y;
    }
    p := start;
    var loops := len / 2;
    while loops > 0
      invariant p == start + (len / 2 - loops) * 2 && loops >= 0
      invariant IsCopy(h, dist, Full(hist, out, p))
      invariant out[p - 1] == y && (dist == 2 ==> out[p - 2] == x)
      invariant out[start - dist] == old(out[start - dist])
    {
      CopyPair(out, p, x, y, dist, hist, h);
      p, loops := p + 2, loops - 1;
    }
  }

  /** The odd byte at the end: `from` has moved along, or the byte there is the
      one that the pattern repeats. */
  method LastByte(out: array<byte>, p: nat, from: nat, len: nat, dist: nat, ghost hist: seq<byte>, ghost h: seq<byte>)
    requires p < out.Length && from < p && 0 < dist <= p && out[from] == out[p - dist]
    requires IsCopy(h, dist, Full(hist, out, p))
    modifies out
    ensures IsCopy(h, dist, Full(hist, out, p + 1))
  {
    ghost var r := Full(hist, out, p);
    Extend(h, dist, r, out[from]);
    out[p] := out[from];
    assert Full(hist, out, p + 1) == r + [r[|r| - dist]];
  }

  /** The match copy of inflate_fast(), with its check of the distance: it fails
      exactly when the distance reaches beyond what the window and the output of
      this call hold, as the DISTEXT state does. */
  method FastMatch(w: Window, out: array<byte>, p: nat, dist: nat, len: nat, even: bool, stray: byte, ghost hist: seq<byte>) returns (ok: bool)
    requires w.Valid() && w.Holds(hist) && out != w.data && p + len <= out.Length && dist > 0 && len >= 3
    modifies out
    ensures ok == (dist <= w.whave + p)
    ensures ok ==> dist <= |hist| + p && Full(hist, out, p + len) == CopyBack(hist + old(out[..p]), dist, len)
  {
    if dist > p {
      if dist - p > w.whave {
        return false;
      }
      FastFromWindow(w, out, p, dist, len, hist);
    } else {
      FastFromOutput(w, out, p, dist, len, even, stray, hist);
    }
    ok := true;
  }
}
