/** Bit strings as numbers, and bit reversal: what the Huffman table builder of
    lib/zlib_inflate/inftrees.c needs to know about shifts, masks and codes that
    are stored backwards. */
module BitStrings {

  /** x << d */
  function Shl(x: nat, d: nat): (r: nat)
  {
    if d == 0 then x else 2 * Shl(x, d - 1)
  }

  /** 1 << n */
  function Pow2(n: nat): (p: nat)
    ensures p > 0
  {
    if n == 0 then 1 else 2 * Pow2(n - 1)
  }

  /** x >> d */
  function Drop(x: nat, d: nat): (r: nat)
  {
    if d == 0 then x else Drop(x / 2, d - 1)
  }

  /** x & ((1 << n) - 1) */
  function Low(x: nat, n: nat): (r: nat)
    ensures r < Pow2(n)
  {
    if n == 0 then 0 else x % 2 + 2 * Low(x / 2, n - 1)
  }

  lemma {:induction false} ShlOne(n: nat)
    ensures Shl(1, n) == Pow2(n)
  {
    if n > 0 { ShlOne(n - 1); }
  }

  lemma {:induction false} ShlZero(n: nat)
    ensures Shl(0, n) == 0
  {
    if n > 0 { ShlZero(n - 1); }
  }

  lemma {:induction false} ShlAdd(a: nat, b: nat, n: nat)
    ensures Shl(a + b, n) == Shl(a, n) + Shl(b, n)
  {
    if n > 0 { ShlAdd(a, b, n - 1); }
  }

  lemma ShlNext(a: nat, n: nat)
    ensures Shl(a + 1, n) == Shl(a, n) + Pow2(n)
  {
    ShlAdd(a, 1, n);
    ShlOne(n);
  }

  lemma {:induction false} ShlShl(a: nat, m: nat, n: nat)
    ensures Shl(Shl(a, m), n) == Shl(a, m + n)
  {
    if n > 0 { ShlShl(a, m, n - 1); }
  }

  lemma {:induction false} ShlPow2(m: nat, n: nat)
    ensures Shl(Pow2(m), n) == Pow2(m + n)
  {
    if n > 0 { ShlPow2(m, n - 1); }
  }

  lemma {:induction false} ShlMonotone(a: nat, b: nat, n: nat)
    requires a <= b
    ensures Shl(a, n) <= Shl(b, n) && (a < b ==> Shl(a, n) < Shl(b, n))
  {
    if n > 0 { ShlMonotone(a, b, n - 1); }
  }

  lemma {:induction false} Pow2Monotone(a: nat, b: nat)
    requires a <= b
    ensures Pow2(a) <= Pow2(b)
  {
    if a < b { Pow2Monotone(a, b - 1); }
  }

  /** A shift by one more, on the inside. */
  lemma {:induction false} ShlInner(a: nat, n: nat)
    ensures Shl(2 * a, n) == 2 * Shl(a, n)
  {
    if n > 0 { ShlInner(a, n - 1); }
  }

  lemma {:induction false} DropShl(a: nat, n: nat)
    ensures Drop(Shl(a, n), n) == a
  {
    if n > 0 { DropShl(a, n - 1); }
  }

  lemma {:induction false} DropMonotone(a: nat, b: nat, n: nat)
    requires a <= b
    ensures Drop(a, n) <= Drop(b, n)
  {
    if n > 0 { DropMonotone(a / 2, b / 2, n - 1); }
  }

  lemma {:induction false} DropBound(a: nat, m: nat, n: nat)
    requires m <= n && a < Pow2(n)
    ensures Drop(a, m) < Pow2(n - m)
  {
    if m > 0 { DropBound(a / 2, m - 1, n - 1); }
  }

  lemma {:induction false} Split(x: nat, n: nat)
    ensures x == Low(x, n) + Shl(Drop(x, n), n)
  {
    if n > 0 { Split(x / 2, n - 1); }
  }

  lemma {:induction false} LowShl(x: nat, m: nat, n: nat)
    requires x < Pow2(n)
    ensures Low(x + Shl(m, n), n) == x && Drop(x + Shl(m, n), n) == m
  {
    if n > 0 {
      assert (x + 2 * Shl(m, n - 1)) / 2 == x / 2 + Shl(m, n - 1);
      LowShl(x / 2, m, n - 1);
    }
  }

  lemma {:induction false} LowSmall(x: nat, n: nat)
    requires x < Pow2(n)
    ensures Low(x, n) == x
  {
    if n > 0 { LowSmall(x / 2, n - 1); }
  }

  lemma {:induction false} LowLow(x: nat, m: nat, n: nat)
    requires m <= n
    ensures Low(Low(x, n), m) == Low(x, m)
  {
    if m > 0 {
      assert Low(x, n) / 2 == Low(x / 2, n - 1) && Low(x, n) % 2 == x % 2;
      LowLow(x / 2, m - 1, n - 1);
    }
  }

  lemma {:induction false} DropLow(x: nat, m: nat, n: nat)
    requires m <= n
    ensures Drop(Low(x, n), m) == Low(Drop(x, m), n - m)
  {
    if m > 0 {
      assert Low(x, n) / 2 == Low(x / 2, n - 1);
      DropLow(x / 2, m - 1, n - 1);
    }
  }

  // ----- Bit reversal

  /** The lowest n bits of c, in reverse order. */
  function Rev(c: nat, n: nat): (r: nat)
    ensures r < Pow2(n)
  {
    if n == 0 then 0 else (if c % 2 == 1 then Pow2(n - 1) else 0) + Rev(c / 2, n - 1)
  }

  lemma {:induction false} RevShift(c: nat, n: nat, d: nat)
    ensures Rev(Shl(c, d), n + d) == Rev(c, n)
  {
    if d > 0 { RevShift(c, n, d - 1); }
  }

  /** Bits above the lowest m do not matter to them. */
  lemma {:induction false} LowIgnores(x: nat, k: nat, m: nat)
    requires m <= k
    ensures Low(x + Pow2(k), m) == Low(x, m)
  {
    if m > 0 {
      assert (x + 2 * Pow2(k - 1)) / 2 == x / 2 + Pow2(k - 1);
      LowIgnores(x / 2, k - 1, m - 1);
    }
  }

  /** The low bits of a reversed code are the reverse of its leading bits. */
  lemma RevStep(c: nat, l: nat)
    requires l > 0
    ensures Rev(c, l) == Rev(c / 2, l - 1) + if c % 2 == 1 then Pow2(l - 1) else 0
  {
  }

  lemma DropNothing(x: nat)
    ensures Drop(x, 0) == x
  {
  }

  lemma DropStep(c: nat, d: nat)
    requires d > 0
    ensures Drop(c, d) == Drop(c / 2, d - 1)
  {
  }

  lemma {:induction false} RevLow(c: nat, l: nat, m: nat)
    requires m <= l
    ensures Low(Rev(c, l), m) == Rev(Drop(c, l - m), m)
    decreases l
  {
    hide Low, Rev, Drop, Pow2;
    if m == l {
      DropNothing(c);
      LowSmall(Rev(c, l), m);
    } else {
      RevLow(c / 2, l - 1, m);
      RevStep(c, l);
      DropStep(c, l - m);
      if c % 2 == 1 {
        LowIgnores(Rev(c / 2, l - 1), l - 1, m);
      }
    }
  }

  lemma {:induction false} RevInjective(a: nat, b: nat, n: nat)
    requires a < Pow2(n) && b < Pow2(n) && Rev(a, n) == Rev(b, n)
    ensures a == b
  {
    if n > 0 { RevInjective(a / 2, b / 2, n - 1); }
  }

  /** Every bit string is the reverse of some code. */
  lemma {:induction false} RevOnto(x: nat, n: nat) returns (c: nat)
    requires x < Pow2(n)
    ensures c < Pow2(n) && Rev(c, n) == x
  {
    if n == 0 {
      c := 0;
    } else if x < Pow2(n - 1) {
      var d := RevOnto(x, n - 1);
      c := 2 * d;
      assert c / 2 == d && c % 2 == 0;
    } else {
      var d := RevOnto(x - Pow2(n - 1), n - 1);
      c := 2 * d + 1;
      assert c / 2 == d && c % 2 == 1;
    }
  }

  /** The increment that the builder does: clear leading ones from the top bit
      down, then set the next bit. */
  function BackInc(huff: nat, len: nat): (r: nat)
    requires huff < Pow2(len)
    ensures r < Pow2(len)
  {
    if len == 0 then 0
    else if huff < Pow2(len - 1) then huff + Pow2(len - 1)
    else BackInc(huff - Pow2(len - 1), len - 1)
  }

  /** Incrementing a reversed code backwards gives the next code, reversed. */
  lemma {:induction false} BackIncRev(c: nat, len: nat)
    ensures BackInc(Rev(c, len), len) == Rev(c + 1, len)
  {
    if len > 0 {
      if c % 2 == 0 {
        assert (c + 1) / 2 == c / 2 && (c + 1) % 2 == 1;
      } else {
        assert (c + 1) / 2 == c / 2 + 1 && (c + 1) % 2 == 0;
        BackIncRev(c / 2, len - 1);
      }
    }
  }

  /** A code whose bits all follow those of a shorter one does not start with it. */
  lemma PrefixFree(a: nat, la: nat, b: nat, lb: nat)
    requires la <= lb && a < Pow2(la) && b < Pow2(lb) && b >= Shl(a + 1, lb - la)
    ensures Low(Rev(b, lb), la) != Rev(a, la)
  {
    hide Rev, Drop, Shl, Low, Pow2;
    RevLow(b, lb, la);
    DropMonotone(Shl(a + 1, lb - la), b, lb - la);
    DropShl(a + 1, lb - la);
    DropBound(b, lb - la, lb);
    if Rev(Drop(b, lb - la), la) == Rev(a, la) {
      RevInjective(Drop(b, lb - la), a, la);
    }
  }
}
