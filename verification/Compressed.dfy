/** Reads of a compressed file through a cache of one decoded block
    (apfsck/compress.c:191-319). The decoders are a parameter: a block decodes to
    at most 65536 bytes, or the checker reports. */
module Compressed {
  import opened Prelude

  /** The compressed file: the size in its header, the number of blocks, and what
      each of them decodes to. */
  datatype File = File(size: nat, blockNum: nat, decode: nat -> Option<seq<byte>>)

  ghost predicate Decoders(f: File)
  {
    forall b: nat :: f.decode(b).Some? ==> |f.decode(b).value| <= 0x10000
  }

  /** The byte at a position of the decoded file, if there is one. */
  function ByteAt(f: File, p: nat): (r: Option<byte>)
  {
    var b := p / 0x10000;
    if p >= f.size || b >= f.blockNum || f.decode(b).None? || p % 0x10000 >= |f.decode(b).value| then None
    else Some(f.decode(b).value[p % 0x10000])
  }

  /** s is what the file holds at `off`. */
  ghost predicate Slice(f: File, off: nat, s: seq<byte>)
  {
    forall i: nat | i < |s| :: ByteAt(f, off + i) == Some(s[i])
  }

  lemma SliceJoin(f: File, off: nat, a: seq<byte>, b: seq<byte>)
    requires Slice(f, off, a) && Slice(f, off + |a|, b)
    ensures Slice(f, off, a + b)
  {
    hide ByteAt;
    var s := a + b;
    forall i: nat | i < |s|
      ensures ByteAt(f, off + i) == Some(s[i])
    {
      if i >= |a| {
        assert off + i == off + |a| + (i - |a|);
        assert b[i - |a|] == s[i];
      }
    }
  }

  datatype Outcome = Reported | Got(bytes: seq<byte>)

  class CompressedFile {
    const file: File
    const buf: array<byte>
    var bufblk: int
    var bufsize: nat

    /** The cache is empty, or holds a block that passes the check of its size. */
    ghost predicate Valid()
      reads this, buf
    {
      && Decoders(file) && buf.Length == 0x10000 && bufsize <= buf.Length
      && (bufblk == -1 || (0 <= bufblk < file.blockNum && file.decode(bufblk) == Some(buf[..bufsize])))
    }

    constructor (f: File)
      requires Decoders(f)
      ensures Valid() && file == f && fresh(buf)
    {
      file := f;
      buf := new byte[0x10000];
      bufblk, bufsize := -1, 0;
    }

    /** Decodes a block into the buffer. */
    method Load(block: nat) returns (ok: bool)
      requires Valid() && block < file.blockNum
      modifies this, buf
      ensures ok <==> file.decode(block).Some?
      ensures ok ==> Valid() && bufblk == block
    {
      var d := file.decode(block);
      if d.None? {
        return false;
      }
      forall i | 0 <= i < |d.value| {
        buf[i] := d.value[i];
      }
      bufblk, bufsize := block, |d.value|;
      assert buf[..bufsize] == d.value;
      ok := true;
    }

    /** apfs_compress_read_block(): never across the end of a block. */
    method ReadBlock(size: nat, off: nat) returns (r: Outcome)
      requires Valid()
      modifies this, buf
      ensures r.Got? ==> Valid() && |r.bytes| <= size && off % 0x10000 + |r.bytes| <= 0x10000 && Slice(file, off, r.bytes)
      ensures r.Got? && |r.bytes| < size && off % 0x10000 + |r.bytes| < 0x10000 ==> ByteAt(file, off + |r.bytes|) == None
      ensures r.Reported? <==> BlockBad(file, off)
    {
      if off >= file.size {
        return Got([]);
      }
      var want := if size > file.size - off then file.size - off else size;
      var block := off / 0x10000;
      var at := off % 0x10000;
      if block != bufblk {
        if block >= file.blockNum {
          return Got([]);
        }
        var ok := Load(block);
        if !ok {
          return Reported;
        }
      }
      var bsize := bufsize;
      if block != file.blockNum - 1 && bsize != 0x10000 {
        return Reported;
      }
      if bsize < at {
        return Got([]);
      }
      bsize := bsize - at;
      if want > bsize {
        want := bsize;
      }
      var d := buf[..bufsize];
      r := Got(d[at..at + want]);
      InBlock(file, off, r.bytes, d);
    }

    /** apfs_compress_read(), with a buffer: as much of the file as was asked for,
        or up to its end. */
    method Read(size: nat, off: nat) returns (r: Outcome)
      requires Valid()
      modifies this, buf
      ensures r.Got? ==> Valid() && |r.bytes| <= size && Slice(file, off, r.bytes)
      ensures r.Got? && |r.bytes| < size ==> ByteAt(file, off + |r.bytes|) == None
      ensures r.Reported? <==> exists p: nat :: off <= p < off + size && BlockBad(file, p)
    {
      hide ByteAt, BlockBad, Slice, Decoders;
      var out: seq<byte> := [];
      SliceEmpty(file, off);
      while |out| < size
        invariant Valid() && |out| <= size && Slice(file, off, out)
        invariant forall p: nat | off <= p < off + |out| :: !BlockBad(file, p)
      {
        var block := 0x10000 - (off + |out|) % 0x10000;
        if block > size - |out| {
          block := size - |out|;
        }
        var res := ReadBlock(block, off + |out|);
        if res.Reported? {
          return Reported;
        }
        SliceJoin(file, off, out, res.bytes);
        GoodBlock(file, off + |out|, |res.bytes|);
        if |res.bytes| < block {
          out := out + res.bytes;
          break;
        }
        out := out + res.bytes;
      }
      r := Got(out);
    }

    /** The same without a buffer: the length of the rest of the file. */
    method Length(off: nat) returns (ok: bool, n: nat)
      requires Valid()
      modifies this, buf
      ensures ok ==> Valid() && ByteAt(file, off + n) == None && exists s :: |s| == n && Slice(file, off, s)
      ensures !ok <==> exists p: nat :: off <= p && BlockBad(file, p)
    {
      hide BlockBad, Slice, Decoders;
      ghost var all: seq<byte> := [];
      SliceEmpty(file, off);
      n := 0;
      while true
        invariant Valid() && n == |all| && Slice(file, off, all)
        invariant forall p: nat | off <= p < off + n :: !BlockBad(file, p)
        decreases file.size - off - n
      {
        var block := 0x10000 - (off + n) % 0x10000;
        var res := ReadBlock(block, off + n);
        if res.Reported? {
          return false, n;
        }
        SliceJoin(file, off, all, res.bytes);
        SliceInside(file, off + n, res.bytes);
        GoodBlock(file, off + n, |res.bytes|);
        all := all + res.bytes;
        n := n + |res.bytes|;
        if |res.bytes| < block {
          return true, n;
        }
      }
    }
  }

  lemma SliceEmpty(f: File, off: nat)
    ensures Slice(f, off, [])
  {
  }

  lemma SliceInside(f: File, off: nat, s: seq<byte>)
    requires Slice(f, off, s)
    ensures |s| > 0 ==> off + |s| <= f.size
  {
    if |s| > 0 {
      var last := |s| - 1;
      assert ByteAt(f, off + last) == Some(s[last]);
    }
  }

  // ----- Files that decode as a whole

  /** All blocks decode, and all but the last are full. */
  ghost predicate WellFormed(f: File)
  {
    forall b: nat | b < f.blockNum :: BlockGood(f, b)
  }

  ghost predicate BlockGood(f: File, b: nat)
  {
    f.decode(b).Some? && |f.decode(b).value| <= 0x10000 && (b != f.blockNum - 1 ==> |f.decode(b).value| == 0x10000)
  }

  function Joined(f: File, n: nat): (s: seq<byte>)
  {
    if n == 0 then [] else Joined(f, n - 1) + (if f.decode(n - 1).Some? then f.decode(n - 1).value else [])
  }

  /** The decoded blocks one after the other, cut at the size in the header. */
  function Contents(f: File): (s: seq<byte>)
  {
    var all := Joined(f, f.blockNum);
    if |all| <= f.size then all else all[..f.size]
  }

  lemma {:induction false} JoinedAt(f: File, n: nat, p: nat)
    requires WellFormed(f) && n <= f.blockNum
    ensures n < f.blockNum ==> |Joined(f, n)| == 0x10000 * n
    ensures p < |Joined(f, n)| <==> p / 0x10000 < n && f.decode(p / 0x10000).Some? && p % 0x10000 < |f.decode(p / 0x10000).value|
    ensures p < |Joined(f, n)| ==> Joined(f, n)[p] == f.decode(p / 0x10000).value[p % 0x10000]
    decreases n
  {
    if n > 0 {
      JoinedAt(f, n - 1, p);
      assert BlockGood(f, n - 1);
      if p / 0x10000 < n {
        assert BlockGood(f, p / 0x10000);
      }
    }
  }

  lemma ContentsAt(f: File, p: nat)
    requires WellFormed(f)
    ensures ByteAt(f, p) == if p < |Contents(f)| then Some(Contents(f)[p]) else None
  {
    hide Joined;
    JoinedAt(f, f.blockNum, p);
    if p / 0x10000 < f.blockNum {
      assert BlockGood(f, p / 0x10000);
    }
  }

  lemma NeverBad(f: File, p: nat)
    requires WellFormed(f)
    ensures !BlockBad(f, p)
  {
    if p / 0x10000 < f.blockNum {
      assert BlockGood(f, p / 0x10000);
    }
  }

  /** A block makes a read report exactly when it is not good. */
  lemma BadIff(f: File, p: nat)
    requires Decoders(f)
    ensures BlockBad(f, p) <==> p < f.size && p / 0x10000 < f.blockNum && !BlockGood(f, p / 0x10000)
  {
  }

  /** So nothing is ever reported if and only if all the blocks are good that the size
      in the header reaches. */
  lemma NeverReportsIff(f: File)
    requires Decoders(f)
    ensures (forall p: nat :: !BlockBad(f, p)) <==> forall b: nat | b < f.blockNum && 0x10000 * b < f.size :: BlockGood(f, b)
  {
    hide BlockGood, BlockBad, Decoders;
    if forall p: nat :: !BlockBad(f, p) {
      forall b: nat | b < f.blockNum && 0x10000 * b < f.size
        ensures BlockGood(f, b)
      {
        BadIff(f, 0x10000 * b);
      }
    } else {
      var p: nat :| BlockBad(f, p);
      BadIff(f, p);
    }
  }

  /** What any read of a whole file gives, whatever was read before: a slice of
      the contents. */
  lemma SliceIs(f: File, off: nat, size: nat, s: seq<byte>)
    requires WellFormed(f) && Slice(f, off, s) && |s| <= size && (|s| < size ==> ByteAt(f, off + |s|) == None)
    ensures s == if off >= |Contents(f)| then [] else Contents(f)[off..Min(off + size, |Contents(f)|)]
  {
    hide ByteAt, Contents;
    ContentsAt(f, off + |s|);
    ContentsAt(f, off);
    forall i: nat | i < |s|
      ensures off + i < |Contents(f)| && Contents(f)[off + i] == s[i]
    {
      assert ByteAt(f, off + i) == Some(s[i]);
      ContentsAt(f, off + i);
    }
    if s != [] {
      var last := |s| - 1;
      assert Contents(f)[off + last] == s[last];
    }
  }

  /** Any history of reads of a whole file: each one gives its slice. */
  method Reads(f: File, requests: seq<(nat, nat)>) returns (results: seq<Outcome>)
    requires Decoders(f) && WellFormed(f)
    ensures |results| == |requests|
    ensures forall k: nat | k < |results| :: Answers(f, requests[k], results[k])
  {
    hide ByteAt, Slice, BlockBad, Answers, WellFormed, Contents, Decoders;
    var c := new CompressedFile(f);
    results := [];
    for k := 0 to |requests|
      invariant c.Valid() && c.file == f && fresh(c) && fresh(c.buf) && |results| == k
      invariant forall i: nat | i < k :: Answers(f, requests[i], results[i])
    {
      var (size, off) := requests[k];
      var r := c.Read(size, off);
      Answered(f, size, off, r);
      results := results + [r];
    }
  }

  ghost predicate Answers(f: File, request: (nat, nat), r: Outcome)
  {
    && r.Got?
    && r.bytes == if request.1 >= |Contents(f)| then [] else Contents(f)[request.1..Min(request.1 + request.0, |Contents(f)|)]
  }

  lemma Answered(f: File, size: nat, off: nat, r: Outcome)
    requires WellFormed(f) && (r.Got? ==> Slice(f, off, r.bytes) && |r.bytes| <= size)
    requires r.Got? && |r.bytes| < size ==> ByteAt(f, off + |r.bytes|) == None
    requires r.Reported? ==> exists p: nat :: BlockBad(f, p)
    ensures r.Got? && Answers(f, (size, off), r)
  {
    hide ByteAt, Slice, BlockBad, WellFormed, Contents;
    if r.Reported? {
      var p: nat :| BlockBad(f, p);
      NeverBad(f, p);
    } else {
      SliceIs(f, off, size, r.bytes);
    }
  }

  /** The block at a position cannot be decoded, or it is not the last one and
      yet not full. */
  predicate BlockBad(f: File, off: nat)
  {
    var b := off / 0x10000;
    && off < f.size && b < f.blockNum
    && (f.decode(b).None? || (b != f.blockNum - 1 && |f.decode(b).value| != 0x10000))
  }

  /** Where a block was read without a report, no position of it is bad; and when
      less was read than the block should hold, no later one is either. */
  lemma GoodBlock(f: File, off: nat, n: nat)
    requires Decoders(f) && !BlockBad(f, off) && off % 0x10000 + n <= 0x10000
    ensures forall p: nat | off <= p < off + n :: !BlockBad(f, p)
    ensures off % 0x10000 + n < 0x10000 && ByteAt(f, off + n) == None ==> forall p: nat | off <= p :: !BlockBad(f, p)
  {
    forall p: nat | off <= p && (p < off + n || (off % 0x10000 + n < 0x10000 && ByteAt(f, off + n) == None))
      ensures !BlockBad(f, p)
    {
      if p < off + n {
        assert p / 0x10000 == off / 0x10000;
      } else {
        assert (off + n) / 0x10000 == off / 0x10000 && (off + n) % 0x10000 == off % 0x10000 + n;
        assert p / 0x10000 >= off / 0x10000;
      }
    }
  }

  lemma InBlock(f: File, off: nat, s: seq<byte>, d: seq<byte>)
    requires var b, at := off / 0x10000, off % 0x10000;
             && b < f.blockNum && f.decode(b) == Some(d) && |d| <= 0x10000 && at + |s| <= |d| && off + |s| <= f.size
             && s == d[at..at + |s|]
    ensures Slice(f, off, s)
    ensures var at := off % 0x10000;
            at + |s| < 0x10000 && (off + |s| == f.size || at + |s| == |d|) ==> ByteAt(f, off + |s|) == None
  {
    forall i: nat | i < |s|
      ensures ByteAt(f, off + i) == Some(s[i])
    {
      assert (off + i) / 0x10000 == off / 0x10000 && (off + i) % 0x10000 == off % 0x10000 + i;
    }
  }
}
