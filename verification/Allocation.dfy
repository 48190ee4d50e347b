/** The allocation bitmap that the checker builds for the container
    (apfsck/spaceman.c:58-115), one bit for each block of the main device. */
module Allocation {
  import opened Prelude

  function Blocks(first: nat, count: nat): (s: set<nat>)
    ensures forall b: nat :: b in s <==> first <= b < first + count
  {
    if count == 0 then {} else Blocks(first, count - 1) + {first + count - 1}
  }

  lemma {:induction false} BlocksSize(first: nat, count: nat)
    ensures |Blocks(first, count)| == count
  {
    if count > 0 {
      BlocksSize(first, count - 1);
    }
  }

  class Bitmap {
    const bits: array<bool>

    constructor (size: nat)
      ensures fresh(bits) && bits.Length == size && Used() == {}
    {
      bits := new bool[size](_ => false);
    }

    ghost function Used(): (s: set<nat>)
      reads this, bits
    {
      set b: nat | b < bits.Length && bits[b]
    }

    /** container_bmap_mark_as_used(): succeeds exactly when the range is on the
        device and none of its blocks is in use; then they all become used. */
    method MarkUsed(first: nat, count: nat) returns (ok: bool)
      requires first < U64 && count < U64
      modifies bits
      ensures ok <==> first + count <= bits.Length && first + count < U64 && Blocks(first, count) !! old(Used())
      ensures ok ==> Used() == old(Used()) + Blocks(first, count)
    {
      if (first + count) % U64 > bits.Length || (first + count) % U64 < first {
        return false;
      }
      var i := first;
      while i < first + count
        invariant first <= i <= first + count
        invariant Used() == old(Used()) + Blocks(first, i - first)
        invariant Blocks(first, i - first) !! old(Used())
      {
        if bits[i] {
          assert i in Blocks(first, count);
          return false;
        }
        bits[i] := true;
        i := i + 1;
      }
      ok := true;
    }
  }
}
