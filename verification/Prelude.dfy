/** What several modules share. */
module Prelude {

  type byte = bv8

  const U64: nat := 0x1_0000_0000_0000_0000

  datatype Option<+T> = None | Some(value: T)

  function Min(a: int, b: int): int { if a > b then b else a }

  function Zeros(n: nat): (s: seq<byte>)
    ensures |s| == n && forall i: nat | i < n :: s[i] == 0
  {
    if n == 0 then [] else Zeros(n - 1) + [0]
  }

  /** Byte strings one after the other. */
  function Concat(parts: seq<seq<byte>>): (s: seq<byte>)
  {
    if parts == [] then [] else Concat(parts[..|parts| - 1]) + parts[|parts| - 1]
  }

  lemma ConcatNone()
    ensures Concat([]) == []
  {
  }

  lemma ConcatStep(parts: seq<seq<byte>>, k: nat)
    requires k < |parts|
    ensures Concat(parts[..k + 1]) == Concat(parts[..k]) + parts[k]
  {
    assert parts[..k + 1][..k] == parts[..k];
  }

  // ----- Bytes as numbers

  function ByteVal(b: byte): (n: nat)
    ensures n < 256
  {
    b as nat
  }

  function ToByte(n: nat): byte
    requires n < 256
  {
    n as byte
  }

  lemma Successor(b: byte)
    requires b != 255
    ensures (b + 1) as int == b as int + 1
  {
  }

  /** Every number below 256 is the value of some byte. */
  lemma {:induction false} ByteOf(n: nat) returns (b: byte)
    requires n < 256
    ensures b as int == n
  {
    if n == 0 {
      b := 0;
    } else {
      b := ByteOf(n - 1);
      Successor(b);
      b := b + 1;
    }
  }

  lemma ByteRoundTrip(n: nat)
    requires n < 256
    ensures ByteVal(ToByte(n)) == n
  {
    var b := ByteOf(n);
    assert (b as int) as byte == b;
  }

  /** The number that some bytes stand for, the least significant one first. */
  function LittleEndianValue(s: seq<byte>): (v: nat)
  {
    if s == [] then 0 else ByteVal(s[0]) + 256 * LittleEndianValue(s[1..])
  }

  lemma LittleEndianBytes(a: byte, b: byte, c: byte)
    ensures LittleEndianValue([a, b]) == ByteVal(a) + 256 * ByteVal(b)
    ensures LittleEndianValue([a, b, c]) == ByteVal(a) + 256 * ByteVal(b) + 65536 * ByteVal(c)
  {
    hide ByteVal, LittleEndianValue;
    assert [a] + [] == [a] && [b] + [] == [b] && [c] + [] == [c];
    assert [a] + [b] == [a, b] && [b] + [c] == [b, c] && [a] + [b, c] == [a, b, c];
    LittleEndianStep(a, []);
    LittleEndianStep(b, []);
    LittleEndianStep(c, []);
    LittleEndianStep(a, [b]);
    LittleEndianStep(b, [c]);
    LittleEndianStep(a, [b, c]);
  }

  lemma LittleEndianStep(a: byte, s: seq<byte>)
    ensures LittleEndianValue([a] + s) == ByteVal(a) + 256 * LittleEndianValue(s) && LittleEndianValue([]) == 0
  {
    assert ([a] + s)[1..] == s;
  }

  // ----- Remainders

  lemma Scaled(n: nat, p: nat, q: nat)
    requires p < q
    ensures n * q >= n * p + n
  {
    assert n * q == n * p + n * (q - p);
    assert n * (q - p) == n * (q - p - 1) + n;
  }

  lemma RemainderIs(a: nat, n: nat, q: nat, r: nat)
    requires n > 0 && r < n && a == n * q + r
    ensures a % n == r
  {
    var p, t := a / n, a % n;
    assert a == n * p + t;
    if p < q {
      Scaled(n, p, q);
      assert false;
    } else if q < p {
      Scaled(n, q, p);
      assert false;
    }
  }
}
