/** The cursor itself (lib/unicode.c:283-313, 329-392). */
module UnicodeCursor {
  import opened Prelude
  import opened Unicode

  // ----- What is left of a piece

  /** The characters of the piece that come after (class, position) when they
      are ordered by class and then by position. */
  function Rest(t: Tables, f: seq<nat>, ccc: nat, pos: int): (r: seq<nat>)
    requires pos >= -1
  {
    OfClass(t, f, ccc, pos + 1) + FromClass(t, f, ccc + 1)
  }

  ghost predicate After(c: nat, p: int, c': nat, p': int)
  {
    c < c' || (c == c' && p < p')
  }

  lemma {:induction false} FromClassSkips(t: Tables, f: seq<nat>, c: nat, d: nat)
    requires c <= d <= 0xFF && forall p: nat | p < |f| :: !(c <= t.ccc(f[p]) < d)
    ensures FromClass(t, f, c) == FromClass(t, f, d)
    decreases d - c
  {
    if c < d {
      OfClassSkips(t, f, c, 0, |f|);
      FromClassSkips(t, f, c + 1, d);
    }
  }

  /** The least character after the last one returned is the next one. */
  lemma NextIs(t: Tables, f: seq<nat>, ccc: nat, pos: int, q: nat)
    requires Sane(t) && q < |f| && pos >= -1 && After(ccc, pos, t.ccc(f[q]), q)
    requires forall p: nat | p < |f| && After(ccc, pos, t.ccc(f[p]), p) :: p == q || After(t.ccc(f[q]), q, t.ccc(f[p]), p)
    ensures Rest(t, f, ccc, pos) == [f[q]] + Rest(t, f, t.ccc(f[q]), q)
  {
    hide FromClass, OfClass, StartersFirst;
    var c := t.ccc(f[q]);
    if c == ccc {
      NextSameClass(t, f, ccc, pos, q);
    } else {
      NextHigherClass(t, f, ccc, pos, q);
    }
  }

  lemma OfClassHead(t: Tables, f: seq<nat>, c: nat, p: nat, q: nat)
    requires p <= q < |f| && t.ccc(f[q]) == c && forall k: nat | p <= k < q :: t.ccc(f[k]) != c
    ensures OfClass(t, f, c, p) == [f[q]] + OfClass(t, f, c, q + 1)
  {
    OfClassSkips(t, f, c, p, q);
  }

  lemma NextSameClass(t: Tables, f: seq<nat>, ccc: nat, pos: int, q: nat)
    requires q < |f| && pos >= -1 && After(ccc, pos, t.ccc(f[q]), q) && t.ccc(f[q]) == ccc
    requires forall p: nat | p < |f| && After(ccc, pos, t.ccc(f[p]), p) :: p == q || After(t.ccc(f[q]), q, t.ccc(f[p]), p)
    ensures Rest(t, f, ccc, pos) == [f[q]] + Rest(t, f, ccc, q)
  {
    hide FromClass, OfClass;
    OfClassHead(t, f, ccc, pos + 1, q);
  }

  lemma NextHigherClass(t: Tables, f: seq<nat>, ccc: nat, pos: int, q: nat)
    requires q < |f| && pos >= -1 && ccc < t.ccc(f[q]) < 0xFF
    requires forall p: nat | p < |f| && After(ccc, pos, t.ccc(f[p]), p) :: p == q || After(t.ccc(f[q]), q, t.ccc(f[p]), p)
    ensures Rest(t, f, ccc, pos) == [f[q]] + Rest(t, f, t.ccc(f[q]), q)
  {
    hide FromClass, OfClass;
    var c := t.ccc(f[q]);
    NoneOfClass(t, f, ccc, pos + 1);
    FromClassSkips(t, f, ccc + 1, c);
    FromClassAt(t, f, c);
    OfClassHead(t, f, c, 0, q);
  }

  lemma NoneOfClass(t: Tables, f: seq<nat>, c: nat, p: nat)
    requires forall k: nat | p <= k < |f| :: t.ccc(f[k]) != c
    ensures OfClass(t, f, c, p) == []
  {
    if p < |f| {
      OfClassSkips(t, f, c, p, |f|);
    }
  }

  lemma FromClassAt(t: Tables, f: seq<nat>, c: nat)
    requires c < 0xFF
    ensures FromClass(t, f, c) == OfClass(t, f, c, 0) + FromClass(t, f, c + 1)
  {
  }

  lemma NothingLeft(t: Tables, f: seq<nat>, ccc: nat, pos: int)
    requires Sane(t) && pos >= -1 && ccc < 0xFF
    requires forall p: nat | p < |f| :: !After(ccc, pos, t.ccc(f[p]), p)
    ensures Rest(t, f, ccc, pos) == []
  {
    if pos + 1 < |f| {
      OfClassSkips(t, f, ccc, pos + 1, |f|);
    }
    FromClassSkips(t, f, ccc + 1, 0xFF);
  }

  lemma StartOfPiece(t: Tables, f: seq<nat>)
    ensures Rest(t, f, 0, -1) == StableSort(t, f)
  {
  }

  /** Where the decomposition of character k is in the piece. */
  lemma FullAt(t: Tables, s: seq<Item>, i: nat, k: nat, j: nat)
    requires i <= k < j <= |s|
    ensures var f, base, d := Full(t, s, i, j), |Full(t, s, i, k)|, Norm(t, s[k]);
            && base + |d| <= |f| && |Full(t, s, i, k + 1)| == base + |d|
            && forall p: nat | p < |d| :: f[base + p] == d[p]
  {
    FullSplit(t, s, i, k, j);
    FullSplit(t, s, k, k + 1, j);
    FullSplit(t, s, i, k, k + 1);
    var d := Norm(t, s[k]);
    assert Full(t, s, k, k + 1) == d + Full(t, s, k + 1, k + 1) == d;
    var f, a, b := Full(t, s, i, j), Full(t, s, i, k), Full(t, s, k + 1, j);
    assert f == a + (d + b);
  }

  lemma {:induction false} FullGrows(t: Tables, s: seq<Item>, i: nat, k: nat, j: nat)
    requires Sane(t) && i <= k < j <= |s| && forall m: nat | i <= m < j :: s[m].Some?
    ensures |Full(t, s, i, k)| < |Full(t, s, i, j)|
  {
    FullSplit(t, s, i, k, j);
    assert |Norm(t, s[k])| > 0;
  }

  lemma {:induction false} PieceIsValid(t: Tables, s: seq<Item>, i: nat, over: bool)
    requires i <= |s| && PieceEnd(t, s, i, over).At?
    ensures forall m: nat | i <= m < PieceEnd(t, s, i, over).end :: s[m].Some?
    decreases |s| - i
  {
    hide StartersFirst, HasNonStarter;
    if i < PieceEnd(t, s, i, over).end {
      PieceIsValid(t, s, i + 1, over || HasNonStarter(t, Norm(t, s[i])));
    }
  }

  /** The length of a piece that ends at a cut. */
  ghost predicate LengthFor(t: Tables, s: seq<Item>, i: nat, c: Cut, n: int)
    requires c.At? ==> c.end <= |s|
    requires c.Inside? ==> c.where < |s|
  {
    match c
    case Invalid => n == 0
    case At(j) => n == |Full(t, s, i, j)|
    case Inside(k) => |Full(t, s, i, k)| < n < |Full(t, s, i, k + 1)|
  }

  lemma FullMonotone(t: Tables, s: seq<Item>, i: nat, a: nat, b: nat)
    requires i <= a <= b <= |s|
    ensures |Full(t, s, i, a)| <= |Full(t, s, i, b)|
  {
    hide Full;
    FullSplit(t, s, i, a, b);
  }

  /** A length inside of a character is not that of any number of characters. */
  lemma NeverThere(t: Tables, s: seq<Item>, i: nat, c: Cut, n: int, k: nat)
    requires c.Inside? && i <= c.where < |s| && LengthFor(t, s, i, c, n) && i <= k <= |s|
    ensures n != |Full(t, s, i, k)|
  {
    hide Full;
    if k <= c.where {
      FullMonotone(t, s, i, k, c.where);
    } else {
      FullMonotone(t, s, i, c.where + 1, k);
    }
  }

  /** The characters seen are as many as the piece has only at its end. */
  lemma LengthMeets(t: Tables, s: seq<Item>, i: nat, n: int, k: nat)
    requires Sane(t) && i < k <= |s| && PieceEnd(t, s, i, false) != Invalid
    requires LengthFor(t, s, i, PieceEnd(t, s, i, false), n)
    requires PieceEnd(t, s, i, false).At? ==> k <= PieceEnd(t, s, i, false).end
    ensures n == |Full(t, s, i, k)| <==> PieceEnd(t, s, i, false) == At(k)
  {
    hide Full, StartersFirst, HasNonStarter, Sane;
    var c := PieceEnd(t, s, i, false);
    if c.Inside? {
      NeverThere(t, s, i, c, n, k);
    } else if k < c.end {
      PieceIsValid(t, s, i, false);
      FullGrows(t, s, i, k, c.end);
    }
  }

  class Cursor {
    const tables: Tables
    const str: seq<Item>
    var curr: nat
    var length: int
    var lastPos: int
    var lastCcc: nat

    ghost predicate Valid()
      reads this
    {
      && Sane(tables) && curr <= |str| && lastCcc < 0xFF && lastPos >= -1
      && (length < 0 ==> lastPos == -1 && lastCcc == 0)
      && (length >= 0 ==>
            && curr < |str| && !Ascii(str[curr]) && PieceEnd(tables, str, curr, false).At?
            && LengthFor(tables, str, curr, PieceEnd(tables, str, curr, false), length))
    }

    /** Everything that is still to be returned. */
    ghost function Pending(): (r: seq<nat>)
      requires Valid()
      reads this
    {
      if length < 0 then Emitted(tables, str, curr)
      else
        var j := PieceEnd(tables, str, curr, false).end;
        Rest(tables, Full(tables, str, curr, j), lastCcc, lastPos) + Emitted(tables, str, j)
    }

    /** How it will end. */
    ghost function Ends(): (e: Ending)
      requires Valid()
      reads this
    {
      Fate(tables, str, if length < 0 then curr else PieceEnd(tables, str, curr, false).end)
    }

    constructor (t: Tables, s: seq<Item>)
      requires Sane(t)
      ensures tables == t && str == s && Valid() && Pending() == Emitted(t, s, 0) && Ends() == Fate(t, s, 0)
    {
      tables, str := t, s;
      curr, length, lastPos, lastCcc := 0, -1, -1, 0;
    }

    /** The inner loop of get_normalization_length(): the characters of one
        decomposition, up to a starter after a non-starter. */
    method CountChar(d: seq<nat>, over: bool) returns (stop: bool, over': bool, n: nat)
      requires |d| > 0
      ensures over && tables.ccc(d[0]) == 0 ==> stop && n == 0
      ensures !(over && tables.ccc(d[0]) == 0) && StartersFirst(tables, d) ==>
                !stop && n == |d| && over' == (over || HasNonStarter(tables, d))
      ensures !(over && tables.ccc(d[0]) == 0) && !StartersFirst(tables, d) ==> stop && 0 < n < |d|
    {
      over', n := over, 0;
      while n < |d|
        invariant n <= |d|
        invariant over' == (over || exists p: nat :: p < n && tables.ccc(d[p]) != 0)
        invariant n > 0 ==> !over || tables.ccc(d[0]) != 0
        invariant forall p: nat, q: nat | p < q < n :: tables.ccc(d[p]) != 0 ==> tables.ccc(d[q]) != 0
      {
        if tables.ccc(d[n]) != 0 {
          over' := true;
        } else if over' {
          if n > 0 {
            LateStarter(tables, d, n, over);
          }
          return true, over', n;
        }
        n := n + 1;
      }
      stop := false;
    }

    /** get_normalization_length() */
    method NormalizationLength() returns (n: nat)
      requires Valid() && curr < |str|
      ensures LengthFor(tables, str, curr, PieceEnd(tables, str, curr, false), n)
    {
      hide Sane, Full, StartersFirst, HasNonStarter;
      var k, over := curr, false;
      n := 0;
      FullEmpty(tables, str, curr);
      while true
        invariant curr <= k <= |str| && n == |Full(tables, str, curr, k)|
        invariant PieceEnd(tables, str, k, over) == PieceEnd(tables, str, curr, false)
        decreases |str| - k
      {
        if k == |str| {
          return;
        }
        if str[k].None? {
          return 0;
        }
        var d := Norm(tables, str[k]);
        SaneAt(tables, str[k].value);
        FullAt(tables, str, curr, k, k + 1);
        var stop, over', count := CountChar(d, over);
        n := n + count;
        if stop {
          return;
        }
        k, over := k + 1, over';
      }
    }

    /** The scan of one character's decomposition. */
    method ScanChar(d: seq<nat>, base: nat, minCcc: nat, minPos: int, utf32min: nat, ghost f: seq<nat>)
      returns (ccc': nat, pos': int, utf32': nat)
      requires Sane(tables) && base + |d| <= |f| && forall p: nat | p < |d| :: f[base + p] == d[p]
      requires Candidate(tables, f, base, lastCcc, lastPos, minCcc, minPos, utf32min)
      ensures Candidate(tables, f, base + |d|, lastCcc, lastPos, ccc', pos', utf32')
    {
      hide Candidate, Sane;
      ccc', pos', utf32' := minCcc, minPos, utf32min;
      var pos, strPos := 0, base;
      while pos < |d|
        invariant 0 <= pos <= |d| && strPos == base + pos
        invariant Candidate(tables, f, strPos, lastCcc, lastPos, ccc', pos', utf32')
      {
        var ccc := tables.ccc(d[pos]);
        assert f[base + pos] == d[pos];
        CandidateStep(tables, f, strPos, lastCcc, lastPos, ccc', pos', utf32');
        if !(ccc >= ccc' || ccc < lastCcc) && (ccc > lastCcc || strPos > lastPos) {
          utf32', ccc', pos' := d[pos], ccc, strPos;
        }
        pos, strPos := pos + 1, strPos + 1;
      }
    }

    /** The scan of a piece for the next character, and its end; `ok` is false if
        it gets to the end of the string, or to invalid UTF-8, without having
        seen as many characters as the piece has. */
    method Scan() returns (ok: bool, minCcc: nat, minPos: int, utf32min: nat, next: nat)
      requires Sane(tables) && curr < |str| && PieceEnd(tables, str, curr, false) != Invalid
      requires LengthFor(tables, str, curr, PieceEnd(tables, str, curr, false), length)
      ensures ok <==> PieceEnd(tables, str, curr, false).At?
      ensures ok ==> next == PieceEnd(tables, str, curr, false).end
      ensures ok ==> var f := Full(tables, str, curr, next);
                     Candidate(tables, f, |f|, lastCcc, lastPos, minCcc, minPos, utf32min)
    {
      ghost var cut := PieceEnd(tables, str, curr, false);
      ghost var j := if cut.At? then cut.end else |str|;
      if cut.At? {
        PieceIsValid(tables, str, curr, false);
        PieceGrows(tables, str, curr);
      }
      hide Full, PieceEnd, Candidate, Sane, Scanned, LengthFor;
      var strPos: nat := 0;
      minCcc, minPos, utf32min, next := 0xFF, -1, 0, curr;
      ScanStart(tables, str, curr, j, lastCcc, lastPos);
      while true
        invariant curr <= next <= j && (cut.At? ==> next < j)
        invariant Scanned(tables, str, curr, j, next, strPos, lastCcc, lastPos, minCcc, minPos, utf32min)
        decreases |str| - next
      {
        if next == |str| || str[next].None? {
          return false, minCcc, minPos, utf32min, next;
        }
        strPos, minCcc, minPos, utf32min := ScanOne(next, j, strPos, minCcc, minPos, utf32min);
        next := next + 1;
        ScanMeets(tables, str, curr, j, next, strPos, lastCcc, lastPos, minCcc, minPos, utf32min, length);
        if strPos == length {
          return true, minCcc, minPos, utf32min, next;
        }
      }
    }

    /** One more character of the string. */
    method ScanOne(next: nat, ghost j: nat, strPos: nat, minCcc: nat, minPos: int, utf32min: nat)
      returns (strPos': nat, ccc': nat, pos': int, utf32': nat)
      requires Sane(tables) && curr <= next < j <= |str|
      requires Scanned(tables, str, curr, j, next, strPos, lastCcc, lastPos, minCcc, minPos, utf32min)
      ensures Scanned(tables, str, curr, j, next + 1, strPos', lastCcc, lastPos, ccc', pos', utf32')
    {
      hide Full, Candidate, Sane, Norm;
      var d := Norm(tables, str[next]);
      FullAt(tables, str, curr, next, j);
      ccc', pos', utf32' := ScanChar(d, strPos, minCcc, minPos, utf32min, Full(tables, str, curr, j));
      strPos' := strPos + |d|;
    }

    /** The start of a piece: its length, which is zero for invalid UTF-8. */
    method Measure()
      requires Valid() && length < 0 && curr < |str| && !Ascii(str[curr])
      modifies this`length
      ensures var cut := PieceEnd(tables, str, curr, false);
              && LengthFor(tables, str, curr, cut, length) && length >= 0 && (length == 0 <==> cut == Invalid)
              && (cut.At? ==> Valid() && Pending() == old(Pending()) && Ends() == old(Ends()))
    {
      hide Full, StableSort, Sane, Rest, Emitted, PieceEnd, Fate, LengthFor;
      EmittedAt(tables, str, curr);
      length := NormalizationLength();
      NeverEmpty(tables, str, curr, length);
      ghost var cut := PieceEnd(tables, str, curr, false);
      if cut.At? {
        StartOfPiece(tables, Full(tables, str, curr, cut.end));
      }
    }

    /** The next character of a piece; or the piece is done, and the cursor moves
        on to the next one; or it is cut inside a character, and `ok` is false. */
    method InPiece() returns (ok: bool, found: bool, r: nat)
      requires Sane(tables) && curr < |str| && length >= 0 && PieceEnd(tables, str, curr, false) != Invalid
      requires LengthFor(tables, str, curr, PieceEnd(tables, str, curr, false), length)
      requires PieceEnd(tables, str, curr, false).At? ==> Valid()
      modifies this
      ensures ok <==> old(PieceEnd(tables, str, curr, false)).At?
      ensures ok ==> old(Valid()) && Valid() && Ends() == old(Ends())
      ensures ok && found ==> old(Pending()) == [r] + Pending()
      ensures ok && !found ==> old(curr) < curr && Pending() == old(Pending())
    {
      hide Full, StableSort, Sane, Rest, Candidate, Emitted, PieceEnd, Fate, LengthFor;
      var minCcc, minPos, utf32min, next;
      ok, minCcc, minPos, utf32min, next := Scan();
      found, r := minCcc != 0xFF, utf32min;
      if !ok {
        return;
      }
      ghost var f := Full(tables, str, curr, next);
      ScanMeans(tables, f, lastCcc, lastPos, minCcc, minPos, utf32min);
      PieceGrows(tables, str, curr);
      if found {
        lastCcc, lastPos := minCcc, minPos;
      } else {
        curr, length, lastPos, lastCcc := next, -1, -1, 0;
      }
    }

    /** What normalize_next() does with an ASCII character. */
    method TakeAscii() returns (r: nat)
      requires Valid() && curr < |str| && Ascii(str[curr])
      modifies this`curr
      ensures Valid() && Ends() == old(Ends()) && old(Pending()) == [r] + Pending()
    {
      hide Full, Sane, Rest, Emitted, PieceEnd, Fate, LengthFor;
      EmittedAt(tables, str, curr);
      r := Plain(tables, str[curr].value);
      curr := curr + 1;
    }

    /** normalize_next(): one more character; or zero, when there are no more or the
        rest is not valid; `ok` is false if it runs past the end of the string. */
    method Next() returns (ok: bool, r: nat)
      requires Valid()
      modifies this
      ensures var p := old(Pending());
              if p != [] then ok && r == p[0] && Valid() && Pending() == p[1..] && Ends() == old(Ends())
              else if old(Ends()) == Overrun then !ok
              else ok && r == 0
    {
      hide Full, Sane, Rest, Candidate, Emitted, PieceEnd, Fate, LengthFor, StableSort;
      while true
        invariant Valid() && Pending() == old(Pending()) && Ends() == old(Ends())
        decreases |str| - curr
      {
        EmittedAt(tables, str, curr);
        if curr == |str| {
          curr := curr + 1;
          return true, 0;
        }
        if Ascii(str[curr]) {
          r := TakeAscii();
          return true, r;
        }
        if length < 0 {
          Measure();
          if length == 0 {
            return true, 0;
          }
        }
        var found;
        ok, found, r := InPiece();
        if !ok || found {
          return;
        }
      }
    }
  }

  /** Among the first n characters of the piece, the least one after the last one
      returned; class 0xFF says that there is none. */
  ghost predicate Least(t: Tables, f: seq<nat>, n: nat, ccc: nat, pos: int, minCcc: nat, minPos: int)
    requires n <= |f|
  {
    if minCcc == 0xFF then forall p: nat | p < n :: !After(ccc, pos, t.ccc(f[p]), p)
    else
      && 0 <= minPos < n && minCcc == t.ccc(f[minPos]) && After(ccc, pos, minCcc, minPos)
      && forall p: nat | p < n && After(ccc, pos, t.ccc(f[p]), p) :: p == minPos || After(minCcc, minPos, t.ccc(f[p]), p)
  }

  ghost predicate Candidate(t: Tables, f: seq<nat>, n: nat, ccc: nat, pos: int, minCcc: nat, minPos: int, utf32min: nat)
    requires n <= |f|
  {
    && minCcc <= 0xFF && Least(t, f, n, ccc, pos, minCcc, minPos)
    && (minCcc != 0xFF ==> utf32min == f[minPos])
  }

  lemma CandidateStep(t: Tables, f: seq<nat>, n: nat, last: nat, pos: int, minCcc: nat, minPos: int, utf32min: nat)
    requires Sane(t) && n < |f| && Candidate(t, f, n, last, pos, minCcc, minPos, utf32min)
    ensures var ccc := t.ccc(f[n]);
            if !(ccc >= minCcc || ccc < last) && (ccc > last || n > pos) then Candidate(t, f, n + 1, last, pos, ccc, n, f[n])
            else Candidate(t, f, n + 1, last, pos, minCcc, minPos, utf32min)
  {
    hide After, StartersFirst;
    LeastStep(t, f, n, last, pos, minCcc, minPos);
  }

  lemma NothingSeen(t: Tables, f: seq<nat>, ccc: nat, pos: int)
    ensures Candidate(t, f, 0, ccc, pos, 0xFF, -1, 0)
  {
  }

  lemma FullEmpty(t: Tables, s: seq<Item>, i: nat)
    requires i <= |s|
    ensures Full(t, s, i, i) == []
  {
  }

  lemma LeastStep(t: Tables, f: seq<nat>, n: nat, last: nat, pos: int, minCcc: nat, minPos: int)
    requires Sane(t) && n < |f| && Least(t, f, n, last, pos, minCcc, minPos) && minCcc <= 0xFF
    ensures var ccc := t.ccc(f[n]);
            if !(ccc >= minCcc || ccc < last) && (ccc > last || n > pos) then Least(t, f, n + 1, last, pos, ccc, n)
            else Least(t, f, n + 1, last, pos, minCcc, minPos)
  {
    hide StartersFirst;
  }

  lemma ScanMeans(t: Tables, f: seq<nat>, ccc: nat, pos: int, minCcc: nat, minPos: int, utf32min: nat)
    requires Sane(t) && pos >= -1 && ccc < 0xFF && Candidate(t, f, |f|, ccc, pos, minCcc, minPos, utf32min)
    ensures if minCcc == 0xFF then Rest(t, f, ccc, pos) == []
            else minCcc < 0xFF && minPos >= 0 && Rest(t, f, ccc, pos) == [utf32min] + Rest(t, f, minCcc, minPos)
  {
    hide StartersFirst, Rest;
    if minCcc == 0xFF {
      NothingLeft(t, f, ccc, pos);
    } else {
      NextIs(t, f, ccc, pos, minPos);
    }
  }

  /** The scan of a piece that ends at j has got to character k. */
  ghost predicate Scanned(t: Tables, s: seq<Item>, i: nat, j: nat, k: nat, strPos: nat, ccc: nat, pos: int, minCcc: nat, minPos: int, utf32min: nat)
    requires i <= k <= j <= |s|
  {
    && strPos == |Full(t, s, i, k)| <= |Full(t, s, i, j)|
    && Candidate(t, Full(t, s, i, j), strPos, ccc, pos, minCcc, minPos, utf32min)
  }

  lemma ScanStart(t: Tables, s: seq<Item>, i: nat, j: nat, ccc: nat, pos: int)
    requires i <= j <= |s|
    ensures Scanned(t, s, i, j, i, 0, ccc, pos, 0xFF, -1, 0)
  {
    hide Candidate;
    FullEmpty(t, s, i);
    NothingSeen(t, Full(t, s, i, j), ccc, pos);
  }

  lemma ScanMeets(t: Tables, s: seq<Item>, i: nat, j: nat, k: nat, strPos: nat, ccc: nat, pos: int, minCcc: nat, minPos: int, utf32min: nat, n: int)
    requires Sane(t) && i < k <= j <= |s| && Scanned(t, s, i, j, k, strPos, ccc, pos, minCcc, minPos, utf32min)
    requires PieceEnd(t, s, i, false) != Invalid && LengthFor(t, s, i, PieceEnd(t, s, i, false), n)
    requires PieceEnd(t, s, i, false).At? ==> j == PieceEnd(t, s, i, false).end
    ensures strPos == n <==> PieceEnd(t, s, i, false) == At(k)
    ensures strPos == n ==> k == j && var f := Full(t, s, i, k); Candidate(t, f, |f|, ccc, pos, minCcc, minPos, utf32min)
  {
    hide Full, Candidate, PieceEnd, Sane, LengthFor;
    LengthMeets(t, s, i, n, k);
  }

  lemma LateStarter(t: Tables, d: seq<nat>, n: nat, over: bool)
    requires 0 < n < |d| && t.ccc(d[n]) == 0 && (over ==> t.ccc(d[0]) != 0)
    requires over || exists p: nat :: p < n && t.ccc(d[p]) != 0
    ensures !StartersFirst(t, d)
  {
    if over {
      assert t.ccc(d[0]) != 0 && t.ccc(d[n]) == 0;
    } else {
      var p: nat :| p < n && t.ccc(d[p]) != 0;
      assert t.ccc(d[p]) != 0 && t.ccc(d[n]) == 0;
    }
  }

  lemma NeverEmpty(t: Tables, s: seq<Item>, i: nat, n: int)
    requires Sane(t) && i < |s| && LengthFor(t, s, i, PieceEnd(t, s, i, false), n) && !Ascii(s[i])
    ensures n >= 0 && (n == 0 <==> PieceEnd(t, s, i, false) == Invalid)
  {
    hide Full, StartersFirst, HasNonStarter;
    if PieceEnd(t, s, i, false).At? {
      PieceGrows(t, s, i);
      PieceIsValid(t, s, i, false);
      FullGrows(t, s, i, i, PieceEnd(t, s, i, false).end);
    }
  }

  lemma SaneAt(t: Tables, c: nat)
    requires Sane(t)
    ensures |t.decompose(c)| > 0
  {
  }

  /** A caller stops at the first zero, which ends the string. */
  function UpToZero(r: seq<nat>): (s: seq<nat>)
  {
    if r == [] || r[0] == 0 then [] else [r[0]] + UpToZero(r[1..])
  }

  /** The loop of a caller such as dentry_hash() (apfsck/key.c:91-111). */
  method NormalizeAll(t: Tables, s: seq<Item>) returns (ok: bool, out: seq<nat>)
    requires Sane(t)
    ensures ok ==> out == UpToZero(Emitted(t, s, 0))
    ensures 0 !in Emitted(t, s, 0) ==> (ok <==> Fate(t, s, 0) != Overrun)
    ensures (forall k: nat | k < |s| :: Clean(t, s, k)) ==> ok && out == UpToZero(Canonical(t, Full(t, s, 0, |s|)))
  {
    hide *;
    var cursor := new Cursor(t, s);
    out := [];
    ghost var all := cursor.Pending();
    AllClean(t, s);
    Started(all);
    while true
      invariant cursor.Valid() && cursor.Ends() == Fate(t, s, 0)
      invariant Collected(all, out, cursor.Pending())
      invariant fresh(cursor)
      decreases |cursor.Pending()|
    {
      ghost var p := cursor.Pending();
      var utf32;
      ok, utf32 := cursor.Next();
      Ended(all, out, p);
      if !ok {
        return;
      }
      if utf32 == 0 {
        break;
      }
      out := out + [utf32];
    }
    ok := true;
  }

  /** The rest of what is pending is still to be collected. */
  ghost predicate Collected(all: seq<nat>, out: seq<nat>, pending: seq<nat>)
  {
    out + UpToZero(pending) == UpToZero(all) && (0 !in all ==> 0 !in pending)
  }

  lemma Started(all: seq<nat>)
    ensures Collected(all, [], all)
  {
  }

  lemma Ended(all: seq<nat>, out: seq<nat>, pending: seq<nat>)
    requires Collected(all, out, pending)
    ensures pending == [] || pending[0] == 0 ==> out == UpToZero(all)
    ensures pending != [] && pending[0] == 0 ==> 0 in all
    ensures pending != [] && pending[0] != 0 ==> Collected(all, out + [pending[0]], pending[1..])
  {
  }

  lemma AllClean(t: Tables, s: seq<Item>)
    requires Sane(t)
    ensures (forall k: nat | k < |s| :: Clean(t, s, k)) ==>
              Fate(t, s, 0) == Finished && Emitted(t, s, 0) == Canonical(t, Full(t, s, 0, |s|))
  {
    hide Clean, Emitted, Canonical, Full, Fate, Sane;
    if forall k: nat | k < |s| :: Clean(t, s, k) {
      CleanFinishes(t, s, 0);
      FinishedIsCanonical(t, s, 0);
    }
  }
}
