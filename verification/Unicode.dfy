/** The cursor that normalizes file names one character at a time
    (lib/unicode.c:283-313, 329-392). The decomposition and combining class
    tables are parameters. */
module Unicode {
  import opened Prelude

  /** A character of the string, or bytes that are not valid UTF-8. */
  type Item = Option<nat>

  /** Full decompositions (after case folding, if it is on) and combining
      classes. */
  datatype Tables = Tables(decompose: nat -> seq<nat>, ccc: nat -> nat, caseFold: bool)

  predicate Ascii(x: Item) { x.Some? && x.value < 0x80 }

  /** What the tables promise: decompositions are not empty, classes are below
      0xFF, and ASCII characters are starters that stand for themselves; with case
      folding capital letters stand for small ones. */
  ghost predicate Sane(t: Tables)
  {
    && (forall c: nat :: |t.decompose(c)| > 0)
    && (forall c: nat :: t.ccc(c) < 0xFF)
    && (forall c: nat :: c < 0x80 ==> t.ccc(c) == 0 && t.decompose(c) == [if t.caseFold && Capital(c) then Small(c) else c])
  }

  predicate Capital(c: nat)
  {
    c < 0x80 && 'A' <= c as char <= 'Z'
  }

  /** The small letter of a capital one. */
  function Small(c: nat): (r: nat)
    requires Capital(c)
    ensures 'a' as int <= r <= 'z' as int && r - 'a' as int == c - 'A' as int
  {
    'a' as int + (c - 'A' as int)
  }

  function Plain(t: Tables, c: nat): nat
  {
    if t.caseFold && 0x41 <= c <= 0x5A then c + 0x20 else c
  }

  /** No starter comes after a non-starter. */
  ghost predicate StartersFirst(t: Tables, f: seq<nat>)
  {
    forall p: nat, q: nat | p < q < |f| :: t.ccc(f[p]) != 0 ==> t.ccc(f[q]) != 0
  }

  function Norm(t: Tables, x: Item): seq<nat>
  {
    if x.Some? then t.decompose(x.value) else []
  }

  /** The decompositions of the characters from i to j, one after the other. */
  function Full(t: Tables, s: seq<Item>, i: nat, j: nat): (f: seq<nat>)
    requires j <= |s|
    decreases j - i
  {
    if i >= j then [] else Norm(t, s[i]) + Full(t, s, i + 1, j)
  }

  // ----- Canonical ordering

  /** The characters of class c from position p on, in order. */
  function OfClass(t: Tables, f: seq<nat>, c: nat, p: nat): (r: seq<nat>)
    decreases |f| - p
  {
    if p >= |f| then []
    else (if t.ccc(f[p]) == c then [f[p]] else []) + OfClass(t, f, c, p + 1)
  }

  function FromClass(t: Tables, f: seq<nat>, c: nat): (r: seq<nat>)
    decreases 0xFF - c
  {
    if c >= 0xFF then [] else OfClass(t, f, c, 0) + FromClass(t, f, c + 1)
  }

  /** A stable sort by combining class. */
  function StableSort(t: Tables, f: seq<nat>): (r: seq<nat>)
  {
    FromClass(t, f, 0)
  }

  function RunLength(t: Tables, f: seq<nat>): (n: nat)
    ensures n <= |f|
    ensures forall p: nat | p < n :: t.ccc(f[p]) != 0
    ensures n < |f| ==> t.ccc(f[n]) == 0
  {
    if f == [] || t.ccc(f[0]) == 0 then 0 else 1 + RunLength(t, f[1..])
  }

  /** The Canonical Ordering Algorithm of section 3.11 of the Unicode Standard:
      starters stay, and each run of non-starters is stably sorted by class. */
  function Canonical(t: Tables, f: seq<nat>): (r: seq<nat>)
    decreases |f|
  {
    if f == [] then []
    else if t.ccc(f[0]) == 0 then [f[0]] + Canonical(t, f[1..])
    else
      var n := RunLength(t, f);
      StableSort(t, f[..n]) + Canonical(t, f[n..])
  }

  // ----- What the cursor does, piece by piece

  /** Where a piece ends: before a character, or inside of one; or it holds
      invalid UTF-8. */
  datatype Cut = Invalid | At(end: nat) | Inside(where: nat)

  /** The piece that starts at i ends before the first starter that comes after a
      non-starter. */
  ghost function PieceEnd(t: Tables, s: seq<Item>, i: nat, over: bool): (c: Cut)
    requires i <= |s|
    ensures c.At? ==> i <= c.end <= |s|
    ensures c.Inside? ==> i <= c.where < |s| && s[c.where].Some? && !StartersFirst(t, Norm(t, s[c.where]))
    decreases |s| - i
  {
    if i == |s| then At(i)
    else if s[i].None? then Invalid
    else
      var d := Norm(t, s[i]);
      if over && |d| > 0 && t.ccc(d[0]) == 0 then At(i)
      else if !StartersFirst(t, d) then Inside(i)
      else PieceEnd(t, s, i + 1, over || HasNonStarter(t, d))
  }

  ghost predicate HasNonStarter(t: Tables, d: seq<nat>)
  {
    exists p: nat :: p < |d| && t.ccc(d[p]) != 0
  }

  /** All that the cursor returns from character i on, until it stops. */
  ghost function Emitted(t: Tables, s: seq<Item>, i: nat): (r: seq<nat>)
    requires i <= |s|
    decreases |s| - i
  {
    if i == |s| then []
    else if Ascii(s[i]) then [Plain(t, s[i].value)] + Emitted(t, s, i + 1)
    else
      match PieceEnd(t, s, i, false)
      case At(j) => if j == i then [] else StableSort(t, Full(t, s, i, j)) + Emitted(t, s, j)
      case _ => []
  }

  /** Why it stops: the string is over, it is not valid, or the scan of a piece
      that ends inside of a character runs past the end of the string. */
  datatype Ending = Finished | BadUtf8 | Overrun

  ghost function Fate(t: Tables, s: seq<Item>, i: nat): (e: Ending)
    requires i <= |s|
    decreases |s| - i
  {
    if i == |s| then Finished
    else if Ascii(s[i]) then Fate(t, s, i + 1)
    else
      match PieceEnd(t, s, i, false)
      case Invalid => BadUtf8
      case Inside(_) => Overrun
      case At(j) => if j == i then Finished else Fate(t, s, j)
  }

  // ----- When that is the canonical ordering

  lemma {:induction false} OfClassSkips(t: Tables, f: seq<nat>, c: nat, p: nat, q: nat)
    requires p <= q <= |f| && forall k: nat | p <= k < q :: t.ccc(f[k]) != c
    ensures OfClass(t, f, c, p) == OfClass(t, f, c, q)
    decreases q - p
  {
    if p < q {
      OfClassSkips(t, f, c, p + 1, q);
    }
  }

  lemma {:induction false} OfClassAll(t: Tables, f: seq<nat>, c: nat, p: nat)
    requires p <= |f| && forall k: nat | p <= k < |f| :: t.ccc(f[k]) == c
    ensures OfClass(t, f, c, p) == f[p..]
    decreases |f| - p
  {
    if p < |f| {
      OfClassAll(t, f, c, p + 1);
    }
  }

  lemma {:induction false} OfClassConcat(t: Tables, a: seq<nat>, b: seq<nat>, c: nat, p: nat)
    requires p <= |a|
    ensures OfClass(t, a + b, c, p) == OfClass(t, a, c, p) + OfClass(t, b, c, 0)
    decreases |a| - p
  {
    if p < |a| {
      OfClassConcat(t, a, b, c, p + 1);
    } else {
      OfClassShift(t, a, b, c, 0);
    }
  }

  lemma {:induction false} OfClassShift(t: Tables, a: seq<nat>, b: seq<nat>, c: nat, p: nat)
    requires p <= |b|
    ensures OfClass(t, a + b, c, |a| + p) == OfClass(t, b, c, p)
    decreases |b| - p
  {
    if p < |b| {
      OfClassShift(t, a, b, c, p + 1);
    }
  }

  lemma {:induction false} FromClassTail(t: Tables, a: seq<nat>, b: seq<nat>, c: nat)
    requires c > 0 && forall k: nat | k < |a| :: t.ccc(a[k]) == 0
    ensures FromClass(t, a + b, c) == FromClass(t, b, c)
    decreases 0xFF - c
  {
    if c < 0xFF {
      OfClassConcat(t, a, b, c, 0);
      OfClassSkips(t, a, c, 0, |a|);
      FromClassTail(t, a, b, c + 1);
    }
  }

  /** Starters before non-starters are where the sort puts them. */
  lemma SortSplit(t: Tables, a: seq<nat>, b: seq<nat>)
    requires forall k: nat | k < |a| :: t.ccc(a[k]) == 0
    requires forall k: nat | k < |b| :: t.ccc(b[k]) != 0
    ensures StableSort(t, a + b) == a + StableSort(t, b)
  {
    hide OfClass;
    OfClassConcat(t, a, b, 0, 0);
    OfClassAll(t, a, 0, 0);
    OfClassSkips(t, b, 0, 0, |b|);
    OfClassEnd(t, b, 0);
    FromClassTail(t, a, b, 1);
  }

  lemma OfClassEnd(t: Tables, f: seq<nat>, c: nat)
    ensures OfClass(t, f, c, |f|) == []
  {
  }

  lemma {:induction false} CanonicalSplit(t: Tables, a: seq<nat>, b: seq<nat>, rest: seq<nat>)
    requires forall k: nat | k < |a| :: t.ccc(a[k]) == 0
    requires forall k: nat | k < |b| :: t.ccc(b[k]) != 0
    requires rest != [] ==> t.ccc(rest[0]) == 0
    ensures Canonical(t, a + b + rest) == a + StableSort(t, b) + Canonical(t, rest)
    decreases |a|
  {
    hide StableSort, Canonical;
    if a != [] {
      var a', tail := a[1..], Canonical(t, rest);
      CanonicalSplit(t, a', b, rest);
      CanonicalStarter(t, a[0], a' + b + rest);
      assert a + b + rest == [a[0]] + (a' + b + rest);
      assert a + StableSort(t, b) + tail == [a[0]] + (a' + StableSort(t, b) + tail);
    } else if b != [] {
      assert a + b + rest == b + rest;
      CanonicalRun(t, b, rest);
    } else {
      assert a + b + rest == rest;
      StableSortEmpty(t);
    }
  }

  lemma CanonicalStarter(t: Tables, x: nat, rest: seq<nat>)
    requires t.ccc(x) == 0
    ensures Canonical(t, [x] + rest) == [x] + Canonical(t, rest)
  {
    assert ([x] + rest)[1..] == rest;
  }

  lemma CanonicalRun(t: Tables, b: seq<nat>, rest: seq<nat>)
    requires b != [] && forall k: nat | k < |b| :: t.ccc(b[k]) != 0
    requires rest != [] ==> t.ccc(rest[0]) == 0
    ensures Canonical(t, b + rest) == StableSort(t, b) + Canonical(t, rest)
  {
    hide StableSort;
    var f := b + rest;
    RunIs(t, b, rest);
    assert f[0] == b[0] && f[..|b|] == b && f[|b|..] == rest;
  }

  lemma RunIs(t: Tables, b: seq<nat>, rest: seq<nat>)
    requires forall k: nat | k < |b| :: t.ccc(b[k]) != 0
    requires rest != [] ==> t.ccc(rest[0]) == 0
    ensures RunLength(t, b + rest) == |b|
  {
    var f := b + rest;
    assert forall k: nat | k < |b| :: f[k] == b[k];
    assert rest != [] ==> f[|b|] == rest[0];
  }

  lemma {:induction false} SortEmpty(t: Tables, c: nat)
    ensures FromClass(t, [], c) == []
    decreases 0xFF - c
  {
    if c < 0xFF {
      SortEmpty(t, c + 1);
    }
  }

  lemma StableSortEmpty(t: Tables)
    ensures StableSort(t, []) == []
  {
    SortEmpty(t, 0);
  }

  lemma {:induction false} FullSplit(t: Tables, s: seq<Item>, i: nat, j: nat, k: nat)
    requires i <= j <= k <= |s|
    ensures Full(t, s, i, k) == Full(t, s, i, j) + Full(t, s, j, k)
    decreases j - i
  {
    if i < j {
      FullSplit(t, s, i + 1, j, k);
    }
  }

  ghost predicate NoStarters(t: Tables, f: seq<nat>)
  {
    forall p: nat | p < |f| :: t.ccc(f[p]) != 0
  }

  /** In a piece all starters come first, and the next piece starts with one. */
  lemma {:induction false} PieceShape(t: Tables, s: seq<Item>, i: nat, over: bool)
    requires Sane(t) && i <= |s| && PieceEnd(t, s, i, over).At?
    ensures var j := PieceEnd(t, s, i, over).end;
            && (if over then NoStarters(t, Full(t, s, i, j)) else StartersFirst(t, Full(t, s, i, j)))
            && (j < |s| ==> s[j].Some? && t.ccc(Norm(t, s[j])[0]) == 0)
            && forall k: nat | i <= k < j :: s[k].Some? && StartersFirst(t, Norm(t, s[k]))
    decreases |s| - i
  {
    var j := PieceEnd(t, s, i, over).end;
    if i < j {
      var d := Norm(t, s[i]);
      var over' := over || HasNonStarter(t, d);
      PieceShape(t, s, i + 1, over');
      Joined(t, d, Full(t, s, i + 1, j), over, over');
    }
  }

  lemma Joined(t: Tables, d: seq<nat>, rest: seq<nat>, over: bool, over': bool)
    requires d != [] && StartersFirst(t, d) && (over ==> t.ccc(d[0]) != 0)
    requires over' == (over || HasNonStarter(t, d))
    requires if over' then NoStarters(t, rest) else StartersFirst(t, rest)
    ensures if over then NoStarters(t, d + rest) else StartersFirst(t, d + rest)
  {
    var f := d + rest;
    forall p: nat, q: nat | p < q < |f| && t.ccc(f[p]) != 0
      ensures t.ccc(f[q]) != 0
    {
      if p >= |d| {
        assert f[p] == rest[p - |d|] && f[q] == rest[q - |d|];
      }
    }
    if over {
      forall p: nat | p < |f|
        ensures t.ccc(f[p]) != 0
      {
        assert f[0] == d[0];
      }
    }
  }

  lemma {:induction false} SplitPoint(t: Tables, f: seq<nat>) returns (n: nat)
    requires StartersFirst(t, f)
    ensures n <= |f|
    ensures forall k: nat | k < n :: t.ccc(f[k]) == 0
    ensures NoStarters(t, f[n..])
  {
    n := 0;
    while n < |f| && t.ccc(f[n]) == 0
      invariant n <= |f| && forall k: nat | k < n :: t.ccc(f[k]) == 0
    {
      n := n + 1;
    }
  }

  lemma PieceCanonical(t: Tables, f: seq<nat>, rest: seq<nat>)
    requires StartersFirst(t, f) && (rest != [] ==> t.ccc(rest[0]) == 0)
    ensures Canonical(t, f + rest) == StableSort(t, f) + Canonical(t, rest)
  {
    hide StableSort, Canonical;
    var n := SplitPoint(t, f);
    var a, b := f[..n], f[n..];
    assert f == a + b;
    SortSplit(t, a, b);
    CanonicalSplit(t, a, b, rest);
  }

  /** One step of what is emitted, and of how it ends. */
  lemma EmittedAt(t: Tables, s: seq<Item>, i: nat)
    requires i <= |s|
    ensures Emitted(t, s, i) ==
            if i == |s| then []
            else if Ascii(s[i]) then [Plain(t, s[i].value)] + Emitted(t, s, i + 1)
            else
              match PieceEnd(t, s, i, false)
              case At(j) => StableSort(t, Full(t, s, i, j)) + Emitted(t, s, j)
              case _ => []
    ensures Fate(t, s, i) ==
            if i == |s| then Finished
            else if Ascii(s[i]) then Fate(t, s, i + 1)
            else
              match PieceEnd(t, s, i, false)
              case Invalid => BadUtf8
              case Inside(_) => Overrun
              case At(j) => Fate(t, s, j)
  {
    hide StableSort, StartersFirst;
    if i < |s| && !Ascii(s[i]) && PieceEnd(t, s, i, false).At? {
      PieceGrows(t, s, i);
    }
  }

  /** Nothing stands in the way of a character: it is valid, and its own
      decomposition puts no starter after a non-starter. */
  ghost predicate Clean(t: Tables, s: seq<Item>, k: nat)
    requires k < |s|
  {
    s[k].Some? && StartersFirst(t, Norm(t, s[k]))
  }

  /** When the cursor gets to the end, it has returned the canonical ordering of
      the full decomposition, and all characters were clean. */
  lemma {:induction false} FinishedIsCanonical(t: Tables, s: seq<Item>, i: nat)
    requires Sane(t) && i <= |s| && Fate(t, s, i) == Finished
    ensures Emitted(t, s, i) == Canonical(t, Full(t, s, i, |s|))
    ensures forall k: nat | i <= k < |s| :: Clean(t, s, k)
    decreases |s| - i
  {
    hide StableSort, StartersFirst, Emitted, Fate, PieceEnd, Canonical, Full, Sane;
    EmittedAt(t, s, i);
    if i < |s| {
      if Ascii(s[i]) {
        AsciiPiece(t, s, i);
        FinishedIsCanonical(t, s, i + 1);
        CanonicalStarter(t, Plain(t, s[i].value), Full(t, s, i + 1, |s|));
      } else {
        PieceGrows(t, s, i);
        var j := PieceEnd(t, s, i, false).end;
        PieceShape(t, s, i, false);
        FinishedIsCanonical(t, s, j);
        FullSplit(t, s, i, j, |s|);
        StartsWith(t, s, j);
        PieceCanonical(t, Full(t, s, i, j), Full(t, s, j, |s|));
      }
    } else {
      StartsWith(t, s, i);
      CanonicalEmpty(t);
    }
  }

  lemma CanonicalEmpty(t: Tables)
    ensures Canonical(t, []) == []
  {
  }

  lemma AsciiPiece(t: Tables, s: seq<Item>, i: nat)
    requires Sane(t) && i < |s| && Ascii(s[i])
    ensures Norm(t, s[i]) == [Plain(t, s[i].value)] && t.ccc(Plain(t, s[i].value)) == 0 && Clean(t, s, i)
    ensures Full(t, s, i, |s|) == [Plain(t, s[i].value)] + Full(t, s, i + 1, |s|)
  {
  }

  lemma StartsWith(t: Tables, s: seq<Item>, j: nat)
    requires Sane(t) && j <= |s| && (j < |s| ==> s[j].Some?)
    ensures j < |s| ==> |Full(t, s, j, |s|)| > 0 && |Norm(t, s[j])| > 0 && Full(t, s, j, |s|)[0] == Norm(t, s[j])[0]
    ensures j == |s| ==> Full(t, s, j, |s|) == []
  {
  }

  lemma PieceGrows(t: Tables, s: seq<Item>, i: nat)
    requires i < |s| && PieceEnd(t, s, i, false).At?
    ensures PieceEnd(t, s, i, false).end > i && s[i].Some?
  {
  }

  lemma {:induction false} CleanPiece(t: Tables, s: seq<Item>, i: nat, over: bool)
    requires i <= |s| && forall k: nat | i <= k < |s| :: Clean(t, s, k)
    ensures PieceEnd(t, s, i, over).At?
    decreases |s| - i
  {
    hide StartersFirst;
    if i < |s| {
      assert Clean(t, s, i);
      CleanPiece(t, s, i + 1, over || HasNonStarter(t, Norm(t, s[i])));
    }
  }

  /** Clean characters all the way get the cursor to the end. */
  lemma {:induction false} CleanFinishes(t: Tables, s: seq<Item>, i: nat)
    requires i <= |s| && forall k: nat | i <= k < |s| :: Clean(t, s, k)
    ensures Fate(t, s, i) == Finished
    decreases |s| - i
  {
    hide Clean;
    if i < |s| {
      if Ascii(s[i]) {
        CleanFinishes(t, s, i + 1);
      } else {
        CleanPiece(t, s, i, false);
        PieceGrows(t, s, i);
        CleanFinishes(t, s, PieceEnd(t, s, i, false).end);
      }
    }
  }

  lemma {:induction false} ValidFate(t: Tables, s: seq<Item>, i: nat)
    requires i <= |s| && forall k: nat | k < |s| :: s[k].Some?
    ensures Fate(t, s, i) != BadUtf8
    decreases |s| - i
  {
    if i < |s| {
      if Ascii(s[i]) {
        ValidFate(t, s, i + 1);
      } else {
        ValidPiece(t, s, i, false);
        if PieceEnd(t, s, i, false).At? {
          PieceGrows(t, s, i);
          ValidFate(t, s, PieceEnd(t, s, i, false).end);
        }
      }
    }
  }

  lemma {:induction false} ValidPiece(t: Tables, s: seq<Item>, i: nat, over: bool)
    requires i <= |s| && forall k: nat | k < |s| :: s[k].Some?
    ensures PieceEnd(t, s, i, over) != Invalid
    decreases |s| - i
  {
    if i < |s| {
      ValidPiece(t, s, i + 1, over || HasNonStarter(t, Norm(t, s[i])));
    }
  }

  /** For every valid string: the cursor gets to the end if and only if no single
      character's decomposition puts a starter after a non-starter, and then it
      has returned the canonical ordering; otherwise it runs past the end. */
  lemma WorksExactly(t: Tables, s: seq<Item>)
    requires Sane(t) && forall k: nat | k < |s| :: s[k].Some?
    ensures Fate(t, s, 0) == Finished <==> forall k: nat | k < |s| :: StartersFirst(t, Norm(t, s[k]))
    ensures Fate(t, s, 0) == Finished ==> Emitted(t, s, 0) == Canonical(t, Full(t, s, 0, |s|))
    ensures Fate(t, s, 0) == Finished || Fate(t, s, 0) == Overrun
  {
    hide StartersFirst, Emitted, Canonical, Full, Fate, Sane;
    ValidFate(t, s, 0);
    if Fate(t, s, 0) == Finished {
      FinishedIsCanonical(t, s, 0);
      forall k: nat | k < |s|
        ensures StartersFirst(t, Norm(t, s[k]))
      {
        assert Clean(t, s, k);
      }
    } else if forall k: nat | k < |s| :: StartersFirst(t, Norm(t, s[k])) {
      forall k: nat | k < |s|
        ensures Clean(t, s, k)
      {
      }
      CleanFinishes(t, s, 0);
    }
  }

  /** With case folding U+1F80 stands for an alpha, a mark and an iota, since the
      iota subscript folds to a letter; so a name that has it overruns. */
  lemma IotaSubscript(t: Tables, s: seq<Item>, k: nat)
    requires Sane(t) && forall i: nat | i < |s| :: s[i].Some?
    requires k < |s| && s[k] == Some(0x1F80) && t.decompose(0x1F80) == [0x3B1, 0x313, 0x3B9]
    requires t.ccc(0x313) == 230 && t.ccc(0x3B9) == 0
    ensures Fate(t, s, 0) == Overrun
  {
    hide Fate, Emitted, Canonical, Full, Sane;
    var d := Norm(t, s[k]);
    assert t.ccc(d[1]) != 0 && t.ccc(d[2]) == 0;
    assert !StartersFirst(t, d);
    WorksExactly(t, s);
  }

  // ----- Names in ASCII

  ghost predicate AllAscii(s: seq<Item>)
  {
    forall k: nat | k < |s| :: Ascii(s[k])
  }

  lemma {:induction false} AsciiEmitted(t: Tables, s: seq<Item>, i: nat)
    requires Sane(t) && i <= |s| && AllAscii(s)
    ensures |Emitted(t, s, i)| == |s| - i && Fate(t, s, i) == Finished
    ensures forall k: nat | k < |s| - i :: Emitted(t, s, i)[k] == if t.caseFold && Capital(s[i + k].value) then Small(s[i + k].value) else s[i + k].value
    decreases |s| - i
  {
    hide Sane, PieceEnd, StableSort;
    if i < |s| {
      AsciiEmitted(t, s, i + 1);
      AsciiPlain(t, s[i].value);
    }
  }

  lemma AsciiPlain(t: Tables, c: nat)
    requires Sane(t) && c < 0x80
    ensures Plain(t, c) == if t.caseFold && Capital(c) then Small(c) else c
  {
  }

  ghost predicate SameLetter(a: nat, b: nat)
  {
    a == b || (Capital(a) && b == Small(a)) || (Capital(b) && a == Small(b))
  }

  /** With case folding two ASCII names come out the same if and only if they differ
      in the case of letters alone, and nothing comes out as a capital letter. Without
      it a name comes back unchanged. */
  lemma AsciiNames(t: Tables, s: seq<Item>, r: seq<Item>)
    requires Sane(t) && AllAscii(s) && AllAscii(r)
    ensures t.caseFold ==>
              (Emitted(t, s, 0) == Emitted(t, r, 0) <==> |s| == |r| && forall k: nat | k < |s| :: SameLetter(s[k].value, r[k].value))
    ensures t.caseFold ==> forall k: nat | k < |Emitted(t, s, 0)| :: !Capital(Emitted(t, s, 0)[k])
    ensures !t.caseFold ==> |Emitted(t, s, 0)| == |s| && forall k: nat | k < |s| :: Some(Emitted(t, s, 0)[k]) == s[k]
  {
    hide Sane, Emitted, Fate;
    AsciiEmitted(t, s, 0);
    AsciiEmitted(t, r, 0);
    if t.caseFold && |s| == |r| && forall k: nat | k < |s| :: SameLetter(s[k].value, r[k].value) {
      forall k: nat | k < |s|
        ensures Emitted(t, s, 0)[k] == Emitted(t, r, 0)[k]
      {
        assert SameLetter(s[k].value, r[k].value);
        assert s[0 + k] == s[k] && r[0 + k] == r[k];
      }
    }
    if t.caseFold && Emitted(t, s, 0) == Emitted(t, r, 0) {
      forall k: nat | k < |s|
        ensures SameLetter(s[k].value, r[k].value)
      {
        assert Emitted(t, s, 0)[k] == Emitted(t, r, 0)[k];
        assert s[0 + k] == s[k] && r[0 + k] == r[k];
      }
    }
  }
}
