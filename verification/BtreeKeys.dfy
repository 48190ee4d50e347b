/** The in-memory keys of the b-trees and their order (apfsck/key.c:72-85). */
module BtreeKeys {
  import opened Prelude

  /** A name is a C string: its bytes up to the terminating null. */
  datatype RawKey = Key(id: nat, kind: nat, number: nat, name: Option<seq<bv8>>)

  const XATTR: nat := 4
  const DIR_REC: nat := 9
  const SNAP_NAME: nat := 11

  /** The read_*_key() functions set a name for these record types only. */
  predicate HasName(kind: nat)
  {
    kind == XATTR || kind == DIR_REC || kind == SNAP_NAME
  }

  type Key = k: RawKey | k.name.Some? <==> HasName(k.kind) witness Key(0, 0, 0, None)

  /** The all-zeroes key that every parse_*_btree() starts from. */
  const Zero: Key := Key(0, 0, 0, None)

  function Strcmp(a: seq<bv8>, b: seq<bv8>): (r: int)
    decreases |a|
  {
    if a == [] then (if b == [] then 0 else -1)
    else if b == [] then 1
    else if a[0] != b[0] then (if a[0] < b[0] then -1 else 1)
    else Strcmp(a[1..], b[1..])
  }

  function Keycmp(a: Key, b: Key): (r: int)
  {
    if a.id != b.id then (if a.id < b.id then -1 else 1)
    else if a.kind != b.kind then (if a.kind < b.kind then -1 else 1)
    else if a.number != b.number then (if a.number < b.number then -1 else 1)
    else if a.name.None? then 0
    else Strcmp(a.name.value, b.name.value)
  }

  predicate Le(a: Key, b: Key) { Keycmp(a, b) <= 0 }
  predicate Lt(a: Key, b: Key) { Keycmp(a, b) < 0 }

  lemma {:induction false} StrcmpEqual(a: seq<bv8>, b: seq<bv8>)
    ensures Strcmp(a, b) == 0 <==> a == b
    decreases |a|
  {
    if a != [] && b != [] && a[0] == b[0] {
      StrcmpEqual(a[1..], b[1..]);
      assert a == [a[0]] + a[1..] && b == [b[0]] + b[1..];
    }
  }

  lemma {:induction false} StrcmpFlips(a: seq<bv8>, b: seq<bv8>)
    ensures Strcmp(a, b) < 0 <==> Strcmp(b, a) > 0
    decreases |a|
  {
    if a != [] && b != [] && a[0] == b[0] {
      StrcmpFlips(a[1..], b[1..]);
    }
  }

  lemma {:induction false} StrcmpTransitive(a: seq<bv8>, b: seq<bv8>, c: seq<bv8>)
    requires Strcmp(a, b) <= 0 && Strcmp(b, c) <= 0
    ensures Strcmp(a, c) <= 0
    decreases |a|
  {
    if a != [] && b != [] && c != [] && a[0] == b[0] == c[0] {
      StrcmpTransitive(a[1..], b[1..], c[1..]);
    }
  }

  /** keycmp() is a total order on the keys that the parsers produce, and it
      tells apart any two different keys. */
  lemma KeycmpEqual(a: Key, b: Key)
    ensures Keycmp(a, b) == 0 <==> a == b
  {
    if a.id == b.id && a.kind == b.kind && a.number == b.number && a.name.Some? {
      StrcmpEqual(a.name.value, b.name.value);
    }
  }

  lemma KeycmpFlips(a: Key, b: Key)
    ensures Keycmp(a, b) < 0 <==> Keycmp(b, a) > 0
  {
    if a.id == b.id && a.kind == b.kind && a.number == b.number && a.name.Some? {
      StrcmpFlips(a.name.value, b.name.value);
    }
  }

  lemma LeTransitive(a: Key, b: Key, c: Key)
    requires Le(a, b) && Le(b, c)
    ensures Le(a, c)
  {
    if a.id == b.id == c.id && a.kind == b.kind == c.kind && a.number == b.number == c.number && a.name.Some? {
      StrcmpTransitive(a.name.value, b.name.value, c.name.value);
    }
  }

  lemma LeLtTotal(a: Key, b: Key)
    ensures Le(a, b) <==> !Lt(b, a)
    ensures Keycmp(a, b) > 0 <==> Lt(b, a)
  {
    KeycmpFlips(b, a);
  }

  lemma LtLeTransitive(a: Key, b: Key, c: Key)
    requires Lt(a, b) && Le(b, c)
    ensures Lt(a, c)
  {
    LeLtTotal(c, a);
    if Le(c, a) {
      LeTransitive(b, c, a);
      LeLtTotal(b, a);
    }
  }

  lemma LtTransitive(a: Key, b: Key, c: Key)
    requires Le(a, b) && Lt(b, c)
    ensures Lt(a, c)
  {
    LeLtTotal(c, a);
    if Le(c, a) {
      LeTransitive(c, a, b);
      LeLtTotal(c, b);
    }
  }

  // ----- What the order is

  /** a comes before b in a dictionary: after a common beginning it ends, or its next
      byte has the smaller value. */
  ghost predicate NameBefore(a: seq<bv8>, b: seq<bv8>)
  {
    exists k: nat :: DiffersAt(a, b, k)
  }

  ghost predicate DiffersAt(a: seq<bv8>, b: seq<bv8>, k: nat)
  {
    k <= |a| && k < |b| && a[..k] == b[..k] && (k == |a| || a[k] as int < b[k] as int)
  }

  lemma {:induction false} StrcmpIs(a: seq<bv8>, b: seq<bv8>)
    ensures Strcmp(a, b) < 0 <==> NameBefore(a, b)
    decreases |a|
  {
    if a == [] || b == [] || a[0] != b[0] {
      assert DiffersAt(a, b, 0) <==> b != [] && (a == [] || a[0] as int < b[0] as int);
      forall k: nat | DiffersAt(a, b, k)
        ensures k == 0
      {
        if k > 0 {
          FirstByte(a, b, k);
        }
      }
    } else {
      StrcmpIs(a[1..], b[1..]);
      forall k: nat
        ensures DiffersAt(a, b, k + 1) <==> DiffersAt(a[1..], b[1..], k)
      {
        NextByte(a, b, k);
      }
      if k: nat :| DiffersAt(a[1..], b[1..], k) {
        assert DiffersAt(a, b, k + 1);
      }
      if k: nat :| DiffersAt(a, b, k) {
        assert k > 0;
        assert DiffersAt(a[1..], b[1..], k - 1) by { assert DiffersAt(a, b, (k - 1) + 1); }
      }
    }
  }

  lemma FirstByte(a: seq<bv8>, b: seq<bv8>, k: nat)
    requires DiffersAt(a, b, k) && k > 0
    ensures a != [] && b != [] && a[0] == b[0]
  {
    assert a[..k][0] == b[..k][0];
  }

  lemma NextByte(a: seq<bv8>, b: seq<bv8>, k: nat)
    requires a != [] && b != [] && a[0] == b[0]
    ensures DiffersAt(a, b, k + 1) <==> DiffersAt(a[1..], b[1..], k)
  {
    if k < |a| && k + 1 < |b| {
      SamePrefix(a, b, k);
    }
  }

  lemma SamePrefix(a: seq<bv8>, b: seq<bv8>, k: nat)
    requires k < |a| && k < |b| && a[0] == b[0]
    ensures a[..k + 1] == b[..k + 1] <==> a[1..][..k] == b[1..][..k]
  {
    assert a[..k + 1] == [a[0]] + a[1..][..k];
    assert b[..k + 1] == [b[0]] + b[1..][..k];
    assert a[..k + 1][1..] == a[1..][..k] && b[..k + 1][1..] == b[1..][..k];
  }

  /** The numbers of a key, from the most significant one. */
  function Numbers(k: Key): seq<nat> { [k.id, k.kind, k.number] }

  /** A key comes before another if and only if it is smaller in the first number
      that differs; or none does, and its name comes first. */
  lemma KeycmpIs(a: Key, b: Key)
    ensures Lt(a, b) <==>
            || (exists i: nat :: i < 3 && Numbers(a)[i] < Numbers(b)[i] && forall j: nat | j < i :: Numbers(a)[j] == Numbers(b)[j])
            || (Numbers(a) == Numbers(b) && a.name.Some? && NameBefore(a.name.value, b.name.value))
  {
    var x, y := Numbers(a), Numbers(b);
    if x == y {
      assert x[0] == y[0] && x[1] == y[1] && x[2] == y[2];
      if a.name.Some? {
        StrcmpIs(a.name.value, b.name.value);
      }
    } else {
      var i: nat := if x[0] != y[0] then 0 else if x[1] != y[1] then 1 else 2;
      assert x[i] != y[i] && forall j: nat | j < i :: x[j] == y[j];
    }
  }
}
