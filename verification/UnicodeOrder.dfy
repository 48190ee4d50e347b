/** What the canonical ordering of section 3.11 of the Unicode Standard is, said
    without sorting; the cursor's result has these properties, and nothing else
    does (lib/unicode.c:329-392). */
module UnicodeOrder {
  import opened Unicode

  ghost predicate Rising(t: Tables, r: seq<nat>)
  {
    forall p: nat | p + 1 < |r| :: t.ccc(r[p + 1]) == 0 || t.ccc(r[p]) <= t.ccc(r[p + 1])
  }

  /** The same characters of each class, in the same order. */
  ghost predicate SameClasses(t: Tables, f: seq<nat>, r: seq<nat>)
  {
    forall c: nat :: OfClass(t, f, c, 0) == OfClass(t, r, c, 0)
  }

  /** A starter, or the end. */
  predicate Boundary(t: Tables, f: seq<nat>, p: nat)
  {
    p == |f| || (p < |f| && t.ccc(f[p]) == 0)
  }

  /** r is f in canonical order: starters stay where they are, nothing moves past
      one, classes do not fall until the next one, and characters of the same
      class keep their order. */
  ghost predicate Ordered(t: Tables, f: seq<nat>, r: seq<nat>)
  {
    && |r| == |f| && Rising(t, r)
    && forall p: nat | Boundary(t, f, p) :: Kept(t, f, r, p)
  }

  ghost predicate Kept(t: Tables, f: seq<nat>, r: seq<nat>, p: nat)
  {
    && p <= |f| && p <= |r| && SameClasses(t, f[..p], r[..p])
    && (p < |f| ==> p < |r| && r[p] == f[p])
  }

  // ----- One class at a time

  lemma {:induction false} OneClass(t: Tables, f: seq<nat>, c: nat, p: nat)
    ensures forall k: nat | k < |OfClass(t, f, c, p)| :: t.ccc(OfClass(t, f, c, p)[k]) == c
    decreases |f| - p
  {
    if p < |f| {
      OneClass(t, f, c, p + 1);
    }
  }

  /** A class counts every character of it. */
  lemma {:induction false} ClassCounts(t: Tables, f: seq<nat>, x: nat, p: nat)
    requires p <= |f|
    ensures multiset(OfClass(t, f, t.ccc(x), p))[x] == multiset(f[p..])[x]
    decreases |f| - p
  {
    if p < |f| {
      ClassCounts(t, f, x, p + 1);
      assert f[p..] == [f[p]] + f[p + 1..];
    }
  }

  lemma SameCharacters(t: Tables, f: seq<nat>, r: seq<nat>)
    requires SameClasses(t, f, r)
    ensures multiset(f) == multiset(r)
  {
    forall x: nat
      ensures multiset(f)[x] == multiset(r)[x]
    {
      ClassCounts(t, f, x, 0);
      ClassCounts(t, r, x, 0);
      assert f[0..] == f && r[0..] == r;
    }
  }

  lemma {:induction false} ClassOfSort(t: Tables, f: seq<nat>, d: nat, c: nat)
    ensures OfClass(t, FromClass(t, f, d), c, 0) == if d <= c < 0xFF then OfClass(t, f, c, 0) else []
    decreases 0xFF - d
  {
    hide OfClass;
    if d >= 0xFF {
      OfClassEnd(t, [], c);
    } else {
      var a, b := OfClass(t, f, d, 0), FromClass(t, f, d + 1);
      OfClassConcat(t, a, b, c, 0);
      ClassOfSort(t, f, d + 1, c);
      OneClass(t, f, d, 0);
      if c == d {
        OfClassAll(t, a, c, 0);
      } else {
        OfClassSkips(t, a, c, 0, |a|);
        OfClassEnd(t, a, c);
      }
    }
  }

  /** Sorted, with no class below d. */
  ghost predicate SortedFrom(t: Tables, r: seq<nat>, d: nat)
  {
    (forall p: nat | p < |r| :: t.ccc(r[p]) >= d) && Sorted(t, r)
  }

  ghost predicate Sorted(t: Tables, g: seq<nat>)
  {
    forall p: nat, q: nat | p < q < |g| :: t.ccc(g[p]) <= t.ccc(g[q])
  }

  lemma SortedJoin(t: Tables, a: seq<nat>, b: seq<nat>, d: nat)
    requires (forall k: nat | k < |a| :: t.ccc(a[k]) == d) && SortedFrom(t, b, d + 1)
    ensures SortedFrom(t, a + b, d)
  {
    var r := a + b;
    forall p: nat, q: nat | p < q < |r|
      ensures t.ccc(r[p]) <= t.ccc(r[q])
    {
      if p >= |a| {
        assert r[p] == b[p - |a|] && r[q] == b[q - |a|];
      }
    }
  }

  lemma {:induction false} SortRises(t: Tables, f: seq<nat>, d: nat)
    ensures SortedFrom(t, FromClass(t, f, d), d)
    decreases 0xFF - d
  {
    hide OfClass;
    if d < 0xFF {
      SortRises(t, f, d + 1);
      OneClass(t, f, d, 0);
      SortedJoin(t, OfClass(t, f, d, 0), FromClass(t, f, d + 1), d);
    }
  }

  lemma SortKeeps(t: Tables, f: seq<nat>)
    requires Sane(t)
    ensures SameClasses(t, f, StableSort(t, f)) && |StableSort(t, f)| == |f| && Rising(t, StableSort(t, f))
  {
    hide OfClass, FromClass;
    var r := StableSort(t, f);
    forall c: nat
      ensures OfClass(t, f, c, 0) == OfClass(t, r, c, 0)
    {
      ClassOfSort(t, f, 0, c);
      if c >= 0xFF {
        OfClassSkips(t, f, c, 0, |f|);
        OfClassEnd(t, f, c);
      }
    }
    SameCharacters(t, f, r);
    assert |multiset(f)| == |f| && |multiset(r)| == |r|;
    SortRises(t, f, 0);
  }

  // ----- The canonical ordering is ordered

  lemma SameConcat(t: Tables, f: seq<nat>, g: seq<nat>, r: seq<nat>, s: seq<nat>)
    requires SameClasses(t, f, r)
    ensures SameClasses(t, f + g, r + s) <==> SameClasses(t, g, s)
  {
    hide OfClass;
    forall c: nat
      ensures OfClass(t, f + g, c, 0) == OfClass(t, r + s, c, 0) <==> OfClass(t, g, c, 0) == OfClass(t, s, c, 0)
    {
      OfClassConcat(t, f, g, c, 0);
      OfClassConcat(t, r, s, c, 0);
      assert OfClass(t, f, c, 0) == OfClass(t, r, c, 0);
      Cancel(OfClass(t, f, c, 0), OfClass(t, g, c, 0), OfClass(t, s, c, 0));
    }
  }

  lemma Cancel(a: seq<nat>, b: seq<nat>, c: seq<nat>)
    ensures a + b == a + c <==> b == c
  {
    assert (a + b)[|a|..] == b && (a + c)[|a|..] == c;
  }

  /** A first part that ends before a starter can be told apart from the rest. */
  lemma KeptSplit(t: Tables, f: seq<nat>, r: seq<nat>, n: nat, p: nat)
    requires n <= p <= |f| == |r| && SameClasses(t, f[..n], r[..n])
    ensures Kept(t, f, r, p) <==> Kept(t, f[n..], r[n..], p - n)
  {
    hide SameClasses;
    assert f[..p] == f[..n] + f[n..][..p - n];
    assert r[..p] == r[..n] + r[n..][..p - n];
    SameConcat(t, f[..n], f[n..][..p - n], r[..n], r[n..][..p - n]);
  }

  lemma RisingJoin(t: Tables, a: seq<nat>, b: seq<nat>)
    requires Rising(t, a) && Rising(t, b) && (a != [] && b != [] ==> t.ccc(a[|a| - 1]) == 0 || t.ccc(b[0]) == 0)
    ensures Rising(t, a + b)
  {
    var r := a + b;
    forall p: nat | p + 1 < |r|
      ensures t.ccc(r[p + 1]) == 0 || t.ccc(r[p]) <= t.ccc(r[p + 1])
    {
      if p >= |a| {
        assert r[p] == b[p - |a|] && r[p + 1] == b[p + 1 - |a|];
      }
    }
  }

  /** Before the end of a run of non-starters there is no boundary but its start. */
  lemma NothingBefore(t: Tables, f: seq<nat>, r: seq<nat>, n: nat)
    requires n <= |f| == |r| && SameClasses(t, f[..n], r[..n])
    requires (n == 1 && f[0] == r[0]) || forall p: nat | p < n :: t.ccc(f[p]) != 0
    requires forall p: nat | Boundary(t, f[n..], p) :: Kept(t, f[n..], r[n..], p)
    ensures forall p: nat | Boundary(t, f, p) :: Kept(t, f, r, p)
  {
    hide SameClasses;
    forall p: nat | Boundary(t, f, p)
      ensures Kept(t, f, r, p)
    {
      if p >= n {
        assert Boundary(t, f[n..], p - n);
        KeptSplit(t, f, r, n, p);
      } else {
        assert f[..p] == [] == r[..p];
        SameSelf(t, []);
      }
    }
  }

  lemma SameSelf(t: Tables, f: seq<nat>)
    ensures SameClasses(t, f, f)
  {
  }

  /** The canonical ordering is in canonical order. */
  lemma {:induction false} CanonicalOrdered(t: Tables, f: seq<nat>)
    requires Sane(t)
    ensures Ordered(t, f, Canonical(t, f))
    decreases |f|
  {
    hide StableSort, SameClasses, Kept, Sane;
    if f == [] {
      EmptyOrdered(t);
    } else {
      var n := if t.ccc(f[0]) == 0 then 1 else RunLength(t, f);
      var a := if t.ccc(f[0]) == 0 then [f[0]] else StableSort(t, f[..n]);
      CanonicalOrdered(t, f[n..]);
      var b := Canonical(t, f[n..]);
      FirstPart(t, f, n, a);
      var r := a + b;
      assert r[..n] == a && r[n..] == b;
      JoinsRising(t, f, n, a, b);
      NothingBefore(t, f, r, n);
    }
  }

  lemma EmptyOrdered(t: Tables)
    ensures Ordered(t, [], [])
  {
    forall p: nat | Boundary(t, [], p)
      ensures Kept(t, [], [], p)
    {
    }
  }

  lemma FirstPart(t: Tables, f: seq<nat>, n: nat, a: seq<nat>)
    requires Sane(t) && f != []
    requires n == if t.ccc(f[0]) == 0 then 1 else RunLength(t, f)
    requires a == if t.ccc(f[0]) == 0 then [f[0]] else StableSort(t, f[..n])
    ensures |a| == n && SameClasses(t, f[..n], a) && Rising(t, a)
    ensures t.ccc(f[0]) == 0 ==> f[..n] == a
  {
    hide StableSort, SameClasses, Sane;
    if t.ccc(f[0]) == 0 {
      SameSelf(t, a);
      assert f[..1] == a;
    } else {
      SortKeeps(t, f[..n]);
    }
  }

  lemma JoinsRising(t: Tables, f: seq<nat>, n: nat, a: seq<nat>, b: seq<nat>)
    requires 0 < n <= |f| && |a| == n && Rising(t, a) && Ordered(t, f[n..], b)
    requires (t.ccc(f[0]) == 0 && n == 1 && a[0] == f[0]) || (n < |f| ==> t.ccc(f[n]) == 0)
    ensures Rising(t, a + b)
  {
    hide SameClasses, Rising;
    if b != [] && n < |f| && t.ccc(f[n]) == 0 {
      assert Boundary(t, f[n..], 0);
      assert Kept(t, f[n..], b, 0);
    }
    RisingJoin(t, a, b);
  }

  // ----- And nothing else is

  lemma {:induction false} RisingSorted(t: Tables, g: seq<nat>)
    requires Rising(t, g) && forall p: nat | p < |g| :: t.ccc(g[p]) != 0
    ensures Sorted(t, g)
    decreases |g|
  {
    if |g| > 1 {
      var n := |g| - 1;
      RisingSorted(t, g[..n]);
      assert t.ccc(g[n - 1]) <= t.ccc(g[n]);
      forall p: nat, q: nat | p < q < |g|
        ensures t.ccc(g[p]) <= t.ccc(g[q])
      {
        assert q < n ==> g[..n][p] == g[p] && g[..n][q] == g[q];
        assert p < n - 1 ==> t.ccc(g[..n][p]) <= t.ccc(g[..n][n - 1]);
      }
    }
  }

  /** Where the characters of class c end in a sorted string. */
  lemma {:induction false} ClassBlock(t: Tables, g: seq<nat>, c: nat) returns (n: nat)
    requires Sorted(t, g) && forall p: nat | p < |g| :: t.ccc(g[p]) >= c
    ensures n <= |g| && (forall p: nat | p < n :: t.ccc(g[p]) == c) && (forall p: nat | n <= p < |g| :: t.ccc(g[p]) > c)
  {
    n := 0;
    while n < |g| && t.ccc(g[n]) == c
      invariant n <= |g| && forall p: nat | p < n :: t.ccc(g[p]) == c
    {
      n := n + 1;
    }
  }

  lemma {:induction false} LowClasses(t: Tables, a: seq<nat>, b: seq<nat>, c: nat)
    requires forall p: nat | p < |a| :: t.ccc(a[p]) < c
    ensures FromClass(t, a + b, c) == FromClass(t, b, c)
    decreases 0xFF - c
  {
    hide OfClass;
    if c < 0xFF {
      OfClassConcat(t, a, b, c, 0);
      OfClassSkips(t, a, c, 0, |a|);
      OfClassEnd(t, a, c);
      LowClasses(t, a, b, c + 1);
    }
  }

  /** Sorting what is sorted does nothing. */
  lemma {:induction false} SortedIsSorted(t: Tables, g: seq<nat>, c: nat)
    requires Sane(t) && Sorted(t, g) && c <= 0xFF && forall p: nat | p < |g| :: t.ccc(g[p]) >= c
    ensures FromClass(t, g, c) == g
    decreases 0xFF - c
  {
    hide OfClass;
    if c == 0xFF {
      NoCharacters(t, g);
    } else {
      var n := ClassBlock(t, g, c);
      var a, b := g[..n], g[n..];
      assert g == a + b;
      OfClassConcat(t, a, b, c, 0);
      OfClassAll(t, a, c, 0);
      OfClassSkips(t, b, c, 0, |b|);
      OfClassEnd(t, b, c);
      LowClasses(t, a, b, c + 1);
      SortedIsSorted(t, b, c + 1);
    }
  }

  lemma LowClass(t: Tables, x: nat)
    requires Sane(t)
    ensures t.ccc(x) < 0xFF
  {
  }

  lemma NoCharacters(t: Tables, g: seq<nat>)
    requires Sane(t) && forall p: nat | p < |g| :: t.ccc(g[p]) >= 0xFF
    ensures g == []
  {
    hide Sane;
    if g != [] {
      LowClass(t, g[0]);
    }
  }

  lemma {:induction false} SortByClasses(t: Tables, f: seq<nat>, g: seq<nat>, c: nat)
    requires SameClasses(t, f, g)
    ensures FromClass(t, f, c) == FromClass(t, g, c)
    decreases 0xFF - c
  {
    hide OfClass;
    if c < 0xFF {
      SortByClasses(t, f, g, c + 1);
    }
  }

  lemma NoStartersMoved(t: Tables, f: seq<nat>, g: seq<nat>)
    requires SameClasses(t, f, g) && NoStarters(t, f)
    ensures NoStarters(t, g)
  {
    hide OfClass, SameClasses;
    SameCharacters(t, f, g);
    forall p: nat | p < |g|
      ensures t.ccc(g[p]) != 0
    {
      assert g[p] in multiset(g);
      assert g[p] in f;
    }
  }

  /** A run of non-starters in canonical order is its stable sort. */
  lemma RunUnique(t: Tables, f: seq<nat>, g: seq<nat>)
    requires Sane(t) && SameClasses(t, f, g) && NoStarters(t, f) && Rising(t, g)
    ensures g == StableSort(t, f)
  {
    hide FromClass, SameClasses, Rising;
    NoStartersMoved(t, f, g);
    RisingSorted(t, g);
    SortedIsSorted(t, g, 0);
    SortByClasses(t, f, g, 0);
  }

  /** What is in canonical order is the canonical ordering. */
  lemma {:induction false} OrderedUnique(t: Tables, f: seq<nat>, r: seq<nat>)
    requires Sane(t) && Ordered(t, f, r)
    ensures r == Canonical(t, f)
    decreases |f|
  {
    hide StableSort, SameClasses, Sane, Ordered;
    if f == [] {
      OrderedLength(t, f, r);
    } else {
      var n := if t.ccc(f[0]) == 0 then 1 else RunLength(t, f);
      OrderedSplit(t, f, r, n);
      OrderedUnique(t, f[n..], r[n..]);
      assert r == r[..n] + r[n..];
      if t.ccc(f[0]) != 0 {
        RunUnique(t, f[..n], r[..n]);
      } else {
        assert r[..1] == [f[0]];
      }
    }
  }

  lemma OrderedLength(t: Tables, f: seq<nat>, r: seq<nat>)
    requires Ordered(t, f, r)
    ensures |r| == |f|
  {
  }

  lemma OrderedSplit(t: Tables, f: seq<nat>, r: seq<nat>, n: nat)
    requires Ordered(t, f, r) && f != []
    requires n == if t.ccc(f[0]) == 0 then 1 else RunLength(t, f)
    ensures 0 < n <= |f| == |r| && SameClasses(t, f[..n], r[..n]) && Rising(t, r[..n]) && Ordered(t, f[n..], r[n..])
    ensures t.ccc(f[0]) == 0 ==> r[0] == f[0]
  {
    hide SameClasses;
    FirstKept(t, f, r, n);
    forall p: nat | Boundary(t, f[n..], p)
      ensures Kept(t, f[n..], r[n..], p)
    {
      assert Boundary(t, f, n + p);
      KeptSplit(t, f, r, n, n + p);
    }
  }

  lemma FirstKept(t: Tables, f: seq<nat>, r: seq<nat>, n: nat)
    requires Ordered(t, f, r) && f != []
    requires n == if t.ccc(f[0]) == 0 then 1 else RunLength(t, f)
    ensures SameClasses(t, f[..n], r[..n])
    ensures t.ccc(f[0]) == 0 ==> r[0] == f[0]
  {
    hide SameClasses;
    if t.ccc(f[0]) == 0 {
      assert Boundary(t, f, 0);
      assert Kept(t, f, r, 0);
      assert f[..1] == r[..1];
      SameSelf(t, f[..1]);
    } else {
      assert Boundary(t, f, n);
    }
  }

  /** The canonical ordering is the only one, and has each character once. */
  lemma CanonicalIff(t: Tables, f: seq<nat>, r: seq<nat>)
    requires Sane(t)
    ensures r == Canonical(t, f) <==> Ordered(t, f, r)
    ensures multiset(Canonical(t, f)) == multiset(f)
  {
    hide Canonical, Sane, SameClasses;
    CanonicalOrdered(t, f);
    if Ordered(t, f, r) {
      OrderedUnique(t, f, r);
    }
    var n, c := |f|, Canonical(t, f);
    assert Boundary(t, f, n) && Kept(t, f, c, n);
    assert f[..n] == f && c[..n] == c;
    SameCharacters(t, f, c);
  }

  /** All that the cursor returns for a valid string, when no decomposition puts a
      starter after a non-starter: exactly the canonical order of the decomposed
      characters. */
  lemma EmittedOrdered(t: Tables, s: seq<Item>)
    requires Sane(t) && forall k: nat | k < |s| :: Clean(t, s, k)
    ensures Ordered(t, Full(t, s, 0, |s|), Emitted(t, s, 0))
    ensures multiset(Emitted(t, s, 0)) == multiset(Full(t, s, 0, |s|))
  {
    hide Sane, Clean, Emitted, Full, Ordered, Canonical, Fate;
    CleanFinishes(t, s, 0);
    FinishedIsCanonical(t, s, 0);
    CanonicalIff(t, Full(t, s, 0, |s|), Emitted(t, s, 0));
  }
}
