/** The Fletcher-64 checksum of objects (lib/checksum.c:98-117), on 32-bit words. */
module Fletcher {

  type u32 = x: nat | x < 0x1_0000_0000

  // ----- The two sums, without bounds

  function Sum1(w: seq<u32>): (s: nat)
  {
    if w == [] then 0 else Sum1(w[..|w| - 1]) + w[|w| - 1]
  }

  function Sum2(w: seq<u32>): (s: nat)
  {
    if w == [] then 0 else Sum2(w[..|w| - 1]) + Sum1(w)
  }

  /** What is missing for a multiple of 2^32 - 1. */
  function Complement(x: nat): (c: u32)
    ensures 1 <= c <= 0xFFFF_FFFF && (x + c) % 0xFFFF_FFFF == 0
  {
    0xFFFF_FFFF - x % 0xFFFF_FFFF
  }

  /** The checksum, if nothing wraps around. */
  function Check1(w: seq<u32>): u32 { Complement(Sum1(w) + Sum2(w)) }
  function Check2(w: seq<u32>): u32 { Complement(Sum1(w) + Check1(w)) }

  /** fletcher64(): the sums are those of the words modulo 2^64, so that up to 92680
      words they are exact. */
  method Fletcher64(w: seq<u32>) returns (r: nat)
    ensures var c1 := Complement(Wrapped(Sum1(w) + Sum2(w)));
            r == Complement(Wrapped(Sum1(w) + c1)) * 0x1_0000_0000 + c1
    ensures |w| <= 92680 ==> r == Checksum(w)
  {
    hide Sum1, Sum2, Complement, Wrapped;
    var sum1: nat, sum2: nat := 0, 0;
    NoSums();
    for i := 0 to |w|
      invariant sum1 == Wrapped(Sum1(w[..i])) && sum2 == Wrapped(Sum2(w[..i]))
    {
      SumMore(w[..i], w[i]);
      assert w[..i + 1] == w[..i] + [w[i]];
      WrapOnce(Sum1(w[..i]), w[i]);
      WrapTwice(Sum2(w[..i]), Sum1(w[..i + 1]));
      sum1 := Wrapped(sum1 + w[i]);
      sum2 := Wrapped(sum2 + sum1);
    }
    assert w[..|w|] == w;
    WrapTwice(Sum1(w), Sum2(w));
    var c1: nat := Complement(Wrapped(sum1 + sum2));
    WrapOnce(Sum1(w), c1);
    var c2: nat := Complement(Wrapped(sum1 + c1));
    r := c2 * 0x1_0000_0000 + c1;
    if |w| <= 92680 {
      NoWrap(w);
    }
  }

  lemma WrapOnce(a: nat, b: nat)
    ensures Wrapped(Wrapped(a) + b) == Wrapped(a + b)
  {
  }

  lemma WrapTwice(a: nat, b: nat)
    ensures Wrapped(Wrapped(a) + Wrapped(b)) == Wrapped(a + b)
  {
    WrapOnce(a, Wrapped(b));
    WrapOnce(b, a);
  }

  /** A 64-bit result. */
  function Wrapped(x: nat): (r: nat)
    ensures x < 0x1_0000_0000_0000_0000 ==> r == x
  {
    x % 0x1_0000_0000_0000_0000
  }

  lemma NoSums()
    ensures Wrapped(Sum1([])) == 0 && Wrapped(Sum2([])) == 0
  {
  }

  // ----- The bound

  function Triangle(n: nat): (t: nat)
    ensures 2 * t == n * (n + 1)
  {
    if n == 0 then 0 else Triangle(n - 1) + n
  }

  lemma {:induction false} SumsBounded(w: seq<u32>)
    ensures Sum1(w) <= 0xFFFF_FFFF * |w| && Sum2(w) <= 0xFFFF_FFFF * Triangle(|w|)
  {
    if w != [] {
      SumsBounded(w[..|w| - 1]);
    }
  }

  lemma {:induction false} TriangleGrows(a: nat, b: nat)
    requires a <= b
    ensures Triangle(a) <= Triangle(b)
    decreases b
  {
    if a < b {
      TriangleGrows(a, b - 1);
    }
  }

  lemma NoWrap(w: seq<u32>)
    requires |w| <= 92680
    ensures Sum1(w) + Sum2(w) + 0xFFFF_FFFF < 0x1_0000_0000_0000_0000
  {
    SumsBounded(w);
    TriangleGrows(|w|, 92680);
    assert 2 * Triangle(92680) == 92680 * 92681;
  }

  function Repeated(x: u32, n: nat): (w: seq<u32>)
    ensures |w| == n
  {
    if n == 0 then [] else Repeated(x, n - 1) + [x]
  }

  lemma {:induction false} RepeatedSums(n: nat)
    ensures Sum1(Repeated(0xFFFF_FFFF, n)) == 0xFFFF_FFFF * n
    ensures Sum2(Repeated(0xFFFF_FFFF, n)) == 0xFFFF_FFFF * Triangle(n)
  {
    if n > 0 {
      RepeatedSums(n - 1);
      assert Repeated(0xFFFF_FFFF, n)[..n - 1] == Repeated(0xFFFF_FFFF, n - 1);
    }
  }

  /** One more word, and the sums can go beyond 64 bits. */
  lemma BoundIsTight()
    ensures var w := Repeated(0xFFFF_FFFF, 92681); Sum1(w) + Sum2(w) >= 0x1_0000_0000_0000_0000
  {
    RepeatedSums(92681);
    assert 2 * Triangle(92681) == 92681 * 92682;
  }

  // ----- What it is good for

  lemma SumMore(w: seq<u32>, x: u32)
    ensures Sum1(w + [x]) == Sum1(w) + x && Sum2(w + [x]) == Sum2(w) + Sum1(w) + x
  {
    assert (w + [x])[..|w|] == w;
  }

  /** What fletcher64() returns, if nothing wraps around. */
  function Checksum(w: seq<u32>): (r: nat)
  {
    Check2(w) * 0x1_0000_0000 + Check1(w)
  }

  /** With the two halves of the checksum after the data, the low one first, both sums
      are zero. */
  lemma ChecksumCancels(w: seq<u32>)
    ensures var r := Checksum(w);
            var s := w + [r % 0x1_0000_0000] + [r / 0x1_0000_0000];
            Sum1(s) % 0xFFFF_FFFF == 0 && Sum2(s) % 0xFFFF_FFFF == 0
  {
    hide Sum1, Sum2;
    SumMore(w, Check1(w));
    SumMore(w + [Check1(w)], Check2(w));
    var a, b := Sum1(w) + Sum2(w) + Check1(w), Sum1(w) + Check1(w) + Check2(w);
    assert a % 0xFFFF_FFFF == 0 && b % 0xFFFF_FFFF == 0;
    AddMultiples(a, b);
  }

  lemma AddMultiples(a: nat, b: nat)
    requires a % 0xFFFF_FFFF == 0 && b % 0xFFFF_FFFF == 0
    ensures (a + b) % 0xFFFF_FFFF == 0
  {
  }

  lemma {:induction false} ChangeWord(w: seq<u32>, i: nat, x: u32)
    requires i < |w|
    ensures Sum1(w[i := x]) == Sum1(w) - w[i] + x
  {
    var n := |w| - 1;
    if i < n {
      ChangeWord(w[..n], i, x);
      assert w[i := x][..n] == w[..n][i := x];
    } else {
      assert w[i := x][..n] == w[..n];
    }
  }

  /** The checksum tells the first sum apart. */
  lemma ChecksTell(w: seq<u32>, v: seq<u32>)
    requires Check1(w) == Check1(v) && Check2(w) == Check2(v)
    ensures Sum1(w) % 0xFFFF_FFFF == Sum1(v) % 0xFFFF_FFFF
  {
    hide Sum1, Sum2;
    SameComplement(Sum1(w) + Check1(w), Sum1(v) + Check1(v));
    SameShift(Sum1(w), Sum1(v), Check1(w));
  }

  lemma SameComplement(a: nat, b: nat)
    requires Complement(a) == Complement(b)
    ensures a % 0xFFFF_FFFF == b % 0xFFFF_FFFF
  {
  }

  lemma SameShift(a: nat, b: nat, c: nat)
    requires (a + c) % 0xFFFF_FFFF == (b + c) % 0xFFFF_FFFF
    ensures a % 0xFFFF_FFFF == b % 0xFFFF_FFFF
  {
  }

  lemma {:induction false} SwapWord(w: seq<u32>, i: nat)
    requires i < |w| && w[i] == 0
    ensures Sum2(w[i := 0xFFFF_FFFF]) == Sum2(w) + 0xFFFF_FFFF * (|w| - i)
  {
    ChangeWord(w, i, 0xFFFF_FFFF);
    var n := |w| - 1;
    if i < n {
      SwapWord(w[..n], i);
      assert w[i := 0xFFFF_FFFF][..n] == w[..n][i := 0xFFFF_FFFF];
    } else {
      assert w[i := 0xFFFF_FFFF][..n] == w[..n];
    }
  }

  lemma {:induction false} MultipleAway(x: nat, k: nat)
    ensures Complement(x + 0xFFFF_FFFF * k) == Complement(x)
  {
    if k > 0 {
      MultipleAway(x, k - 1);
    }
  }

  /** Zero and 0xFFFFFFFF are the same to the checksum. */
  lemma SwapHides(w: seq<u32>, i: nat)
    requires i < |w| && w[i] == 0
    ensures Check1(w[i := 0xFFFF_FFFF]) == Check1(w) && Check2(w[i := 0xFFFF_FFFF]) == Check2(w)
  {
    hide Sum1, Sum2, Complement;
    ChangeWord(w, i, 0xFFFF_FFFF);
    SwapWord(w, i);
    var v := w[i := 0xFFFF_FFFF];
    assert Sum1(v) + Sum2(v) == Sum1(w) + Sum2(w) + 0xFFFF_FFFF * (|w| - i + 1);
    MultipleAway(Sum1(w) + Sum2(w), |w| - i + 1);
    MultipleAway(Sum1(w) + Check1(w), 1);
  }

  /** A change of one word changes the checksum, except between 0 and 0xFFFFFFFF. */
  lemma ChangeShows(w: seq<u32>, i: nat, x: u32)
    requires i < |w| && x != w[i]
    ensures Check1(w[i := x]) == Check1(w) && Check2(w[i := x]) == Check2(w) <==>
            (x == 0 && w[i] == 0xFFFF_FFFF) || (x == 0xFFFF_FFFF && w[i] == 0)
  {
    hide Sum1, Sum2, Complement;
    ChangeWord(w, i, x);
    if Check1(w[i := x]) == Check1(w) && Check2(w[i := x]) == Check2(w) {
      ChecksTell(w[i := x], w);
      Differ(Sum1(w) - w[i], x, w[i]);
    }
    if x == 0xFFFF_FFFF && w[i] == 0 {
      SwapHides(w, i);
    }
    if x == 0 && w[i] == 0xFFFF_FFFF {
      SwapHides(w[i := 0], i);
      assert w[i := 0][i := 0xFFFF_FFFF] == w;
    }
  }

  lemma Differ(s: nat, x: u32, y: u32)
    requires (s + x) % 0xFFFF_FFFF == (s + y) % 0xFFFF_FFFF
    ensures x == y || (x == 0 && y == 0xFFFF_FFFF) || (x == 0xFFFF_FFFF && y == 0)
  {
  }
}
