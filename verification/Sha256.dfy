/** The buffering and padding of SHA-256 (lib/sha256.c:308-397). The compression
    function is a parameter; what matters is which blocks it is given. */
module Sha256 {
  import opened Prelude

  // ----- The hash of a message

  /** The compression function over the whole 64-byte blocks of s. */
  function Digest<H>(guts: (H, seq<byte>) -> H, h: H, s: seq<byte>): (r: H)
    decreases |s|
  {
    if |s| < 64 then h else Digest(guts, guts(h, s[..64]), s[64..])
  }

  lemma {:induction false} DigestSplit<H>(guts: (H, seq<byte>) -> H, h: H, a: seq<byte>, b: seq<byte>)
    requires |a| % 64 == 0
    ensures Digest(guts, h, a + b) == Digest(guts, Digest(guts, h, a), b)
    decreases |a|
  {
    if |a| == 0 {
      assert a + b == b;
    } else {
      assert (a + b)[..64] == a[..64] && (a + b)[64..] == a[64..] + b;
      DigestSplit(guts, guts(h, a[..64]), a[64..], b);
    }
  }

  lemma DigestBlock<H>(guts: (H, seq<byte>) -> H, h: H, a: seq<byte>, b: seq<byte>)
    requires |a| % 64 == 0 && |b| == 64
    ensures Digest(guts, h, a + b) == guts(Digest(guts, h, a), b)
  {
    DigestSplit(guts, h, a, b);
    assert b[..64] == b && |b[64..]| == 0;
  }

  /** The n last bytes of a number, with the most significant byte first. */
  function BigEndian(x: nat, n: nat): (s: seq<byte>)
    ensures |s| == n
  {
    if n == 0 then [] else BigEndian(x / 256, n - 1) + [ToByte(x % 256)]
  }

  /** How many zero bytes it takes. */
  function PadZeros(n: nat): (k: nat)
    ensures k < 64 && (n + 1 + k + 8) % 64 == 0
  {
    if n % 64 < 56 then 55 - n % 64 else 119 - n % 64
  }

  /** Section 5.1.1 of FIPS 180-4: a one bit, as few zero bits as will do, and the
      length in bits make the message a multiple of 512 bits long. */
  function Padded(m: seq<byte>): (s: seq<byte>)
  {
    m + [0x80] + Zeros(PadZeros(|m|)) + BigEndian(8 * |m|, 8)
  }

  /** The number that some bytes stand for, the most significant one first. */
  function Value(s: seq<byte>): (v: nat)
  {
    if s == [] then 0 else ByteVal(s[0]) * Power(|s| - 1) + Value(s[1..])
  }

  /** 256 to the power of n. */
  function Power(n: nat): (p: nat)
    ensures p > 0
  {
    if n == 0 then 1 else 256 * Power(n - 1)
  }

  lemma PowerStep(n: nat)
    ensures Power(n + 1) == 256 * Power(n)
  {
  }

  lemma {:induction false} ValueMore(s: seq<byte>, b: byte)
    ensures Value(s + [b]) == 256 * Value(s) + ByteVal(b)
    decreases |s|
  {
    hide Power, ByteVal;
    if s == [] {
      assert [b][1..] == [] && Value([b]) == ByteVal(b) * Power(0) + Value([]) by { assert [b] == s + [b]; }
      PowerZero();
    } else {
      var n := |s| - 1;
      ValueMore(s[1..], b);
      assert (s + [b])[1..] == s[1..] + [b];
      PowerStep(n);
      Rearranged(ByteVal(s[0]), Power(n));
    }
  }

  lemma Rearranged(a: nat, p: nat)
    ensures a * (256 * p) == 256 * (a * p)
  {
  }

  lemma PowerZero()
    ensures Power(0) == 1
  {
  }

  lemma {:induction false} BigEndianValue(x: nat, n: nat)
    ensures Value(BigEndian(x, n)) == x % Power(n)
  {
    hide Value, Power, ByteVal, ToByte;
    if n == 0 {
      PowerZero();
      NoValue();
    } else {
      BigEndianValue(x / 256, n - 1);
      ValueMore(BigEndian(x / 256, n - 1), ToByte(x % 256));
      ByteRoundTrip(x % 256);
      PowerStep(n - 1);
      SplitByte(x, Power(n - 1));
    }
  }

  lemma NoValue()
    ensures Value([]) == 0
  {
  }

  lemma SplitByte(x: nat, p: nat)
    requires p > 0
    ensures 256 * (x / 256 % p) + x % 256 == x % (256 * p)
  {
    var y := x / 256;
    var q, r, b := y / p, y % p, x % 256;
    assert y == p * q + r;
    assert x == 256 * y + b;
    assert 256 * (p * q) == (256 * p) * q;
    RemainderIs(x, 256 * p, q, 256 * r + b);
  }

  lemma EightBytes()
    ensures Power(8) == 0x1_0000_0000_0000_0000
  {
  }

  /** The last block of a message shorter than 2^61 bytes ends with its length in
      bits; before that there is a one bit, and then zeroes, no more than needed. */
  lemma PaddedEnds(m: seq<byte>)
    requires |m| < 0x2000_0000_0000_0000
    ensures var s, n := Padded(m), |Padded(m)|;
            && n % 64 == 0 && |m| + 9 <= n < |m| + 9 + 64 && m <= s && s[|m|] == 0x80
            && (forall k: nat | |m| < k < n - 8 :: s[k] == 0)
            && Value(s[n - 8..]) == 8 * |m|
  {
    hide BigEndian, Value, Power;
    var s, n := Padded(m), |Padded(m)|;
    BigEndianValue(8 * |m|, 8);
    EightBytes();
    assert s[n - 8..] == BigEndian(8 * |m|, 8);
    assert s[..|m|] == m;
  }

  // ----- The context

  class Context<H> {
    const guts: (H, seq<byte>) -> H
    const init: H
    const buffer: array<byte>
    var bufferLength: nat
    var totalLength: nat
    var hash: H

    /** m was taken in, but the last block may still be in the buffer. */
    ghost predicate Buffered(m: seq<byte>)
      reads this, buffer
    {
      && buffer.Length == 64 && bufferLength <= 64 && bufferLength <= |m| && (|m| - bufferLength) % 64 == 0
      && buffer[..bufferLength] == m[|m| - bufferLength..]
      && (|m| < 0x2000_0000_0000_0000 ==> totalLength == 8 * |m|)
      && hash == Digest(guts, init, m[..|m| - bufferLength])
    }

    ghost predicate Holds(m: seq<byte>)
      reads this, buffer
    {
      Buffered(m) && bufferLength < 64
    }

    constructor (compress: (H, seq<byte>) -> H, start: H)
      ensures guts == compress && init == start && fresh(buffer) && Holds([])
    {
      guts, init, hash := compress, start, start;
      buffer := new byte[64];
      bufferLength, totalLength := 0, 0;
    }

    method Copy(data: seq<byte>, ghost m: seq<byte>)
      requires Holds(m) && bufferLength + |data| <= 64
      modifies this`bufferLength, this`totalLength, buffer
      ensures Buffered(m + data) && bufferLength == old(bufferLength) + |data|
    {
      hide Digest;
      ghost var n := |m| - bufferLength;
      ghost var kept := buffer[..bufferLength];
      forall i | 0 <= i < |data| {
        buffer[bufferLength + i] := data[i];
      }
      totalLength := (totalLength + |data| * 8) % 0x1_0000_0000_0000_0000;
      bufferLength := bufferLength + |data|;
      ghost var m' := m + data;
      assert buffer[..bufferLength] == kept + data;
      assert m'[n..] == m[n..] + data && m'[..n] == m[..n];
    }

    method Flush(ghost m: seq<byte>)
      requires Buffered(m)
      modifies this`bufferLength, this`hash
      ensures Holds(m) && bufferLength == if old(bufferLength) == 64 then 0 else old(bufferLength)
    {
      hide Digest;
      if bufferLength == 64 {
        ghost var n := |m| - 64;
        assert m == m[..n] + m[n..] == m[..|m|];
        assert buffer[..] == buffer[..64];
        DigestBlock(guts, init, m[..n], m[n..]);
        hash := guts(hash, buffer[..]);
        bufferLength := 0;
      }
    }

    /** sha256_update() */
    method Update(data: seq<byte>, ghost m: seq<byte>)
      requires Holds(m)
      modifies this, buffer
      ensures Holds(m + data)
    {
      hide Buffered;
      var at := 0;
      assert m + data[..0] == m;
      while at < |data|
        invariant 0 <= at <= |data| && Holds(m + data[..at])
      {
        var left := 64 - bufferLength;
        var count := if left > |data| - at then |data| - at else left;
        Inside(m + data[..at]);
        Copy(data[at..at + count], m + data[..at]);
        assert m + data[..at] + data[at..at + count] == m + data[..at + count];
        at := at + count;
        Flush(m + data[..at]);
      }
      assert data[..|data|] == data;
    }

    /** The variant for SHA256_FAST_COPY, which does not copy whole blocks. */
    method UpdateFast(data: seq<byte>, ghost m: seq<byte>)
      requires Holds(m)
      modifies this, buffer
      ensures Holds(m + data)
    {
      hide Buffered;
      var at := 0;
      assert m + data[..0] == m;
      if bufferLength > 0 {
        var left := 64 - bufferLength;
        at := if left > |data| then |data| else left;
        Inside(m);
        Copy(data[..at], m);
        Flush(m + data[..at]);
      }
      if at < |data| {
        at := WholeBlocks(data, at, m);
      }
      if at < |data| {
        Copy(data[at..], m + data[..at]);
        assert m + data[..at] + data[at..] == m + data;
        Flush(m + data);
      } else {
        assert data[..at] == data;
      }
    }

    method WholeBlocks(data: seq<byte>, start: nat, ghost m: seq<byte>) returns (at: nat)
      requires start <= |data| && Holds(m + data[..start]) && bufferLength == 0
      modifies this`totalLength, this`hash
      ensures start <= at <= |data| < at + 64 && Holds(m + data[..at]) && bufferLength == 0
    {
      hide Digest;
      at := start;
      while |data| - at > 63
        invariant start <= at <= |data| && Holds(m + data[..at]) && bufferLength == 0
      {
        ghost var a, b := m + data[..at], data[at..at + 64];
        totalLength := (totalLength + 512) % 0x1_0000_0000_0000_0000;
        assert a[..|a|] == a && m + data[..at + 64] == a + b;
        assert (a + b)[..|a + b|] == a + b;
        DigestBlock(guts, init, a, b);
        hash := guts(hash, data[at..at + 64]);
        at := at + 64;
        assert (m + data[..at])[|m| + at..] == [];
      }
    }

    ghost method Inside(m: seq<byte>)
      requires Holds(m)
      ensures bufferLength < 64 && bufferLength <= |m|
    {
    }

    /** sha256_final(), before the hash is copied out: the compression function has
        been given the blocks of the padded message, and no others. */
    method Final(ghost m: seq<byte>) returns (digest: H)
      requires Holds(m) && |m| < 0x2000_0000_0000_0000
      modifies this, buffer
      ensures digest == Digest(guts, init, Padded(m))
    {
      var count := 120 - bufferLength;
      if count > 64 {
        count := count - 64;
      }
      PaddingIs(m, bufferLength, count);
      hide Buffered, Digest, Padded;
      var length := BigEndian(totalLength, 8);
      var padding: seq<byte> := Padding(count);
      Update(padding, m);
      Update(length, m + padding);
      Whole(m + padding + length);
      digest := hash;
    }

    /** When the length is a multiple of 64, nothing is left in the buffer. */
    ghost method Whole(m: seq<byte>)
      requires Holds(m) && |m| % 64 == 0
      ensures hash == Digest(guts, init, m)
    {
      hide Digest;
      assert bufferLength == 0;
      assert m[..|m|] == m;
    }
  }

  /** The first bytes of the constant padding. */
  function Padding(count: nat): seq<byte>
    requires 1 <= count <= 64
  {
    ([0x80] + Zeros(63))[..count]
  }

  lemma PaddingIs(m: seq<byte>, buffered: nat, count: nat)
    requires buffered < 64 && buffered <= |m| && (|m| - buffered) % 64 == 0
    requires count == if 120 - buffered > 64 then 56 - buffered else 120 - buffered
    ensures 1 <= count <= 64 && m + Padding(count) + BigEndian(8 * |m|, 8) == Padded(m) && |Padded(m)| % 64 == 0
  {
    assert buffered == |m| % 64;
    assert count == 1 + PadZeros(|m|);
    ZerosPrefix(63, count - 1);
    assert Padding(count) == [0x80] + Zeros(63)[..count - 1];
    assert |Padded(m)| == |m| + 1 + PadZeros(|m|) + 8;
  }

  lemma {:induction false} ZerosPrefix(n: nat, k: nat)
    requires k <= n
    ensures Zeros(n)[..k] == Zeros(k)
    decreases n
  {
    if k < n {
      ZerosPrefix(n - 1, k);
      assert Zeros(n)[..k] == Zeros(n - 1)[..k];
    } else {
      assert Zeros(n)[..n] == Zeros(n);
    }
  }

  /** However a message is split into updates, its hash is that of the padded
      message. */
  method Hash<H>(guts: (H, seq<byte>) -> H, init: H, parts: seq<seq<byte>>) returns (digest: H)
    requires |Concat(parts)| < 0x2000_0000_0000_0000
    ensures digest == Digest(guts, init, Padded(Concat(parts)))
  {
    hide *;
    var c := new Context(guts, init);
    ConcatNone();
    assert parts[..0] == [];
    for k := 0 to |parts|
      invariant c.Holds(Concat(parts[..k])) && c.guts == guts && c.init == init && fresh(c) && fresh(c.buffer)
    {
      ConcatStep(parts, k);
      c.Update(parts[k], Concat(parts[..k]));
    }
    assert parts[..|parts|] == parts;
    digest := c.Final(Concat(parts));
  }
}
