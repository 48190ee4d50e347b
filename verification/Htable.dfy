/** The hash tables of the checker: 512 lists in order of id, which together
    behave like one map (apfsck/htable.c:55-130). */
module Htable {
  import opened Prelude

  datatype Entry<V> = Entry(id: nat, value: V)

  /** The ids in a list grow, and they all belong in it. */
  ghost predicate GoodList<V>(s: seq<Entry<V>>, bucket: nat)
  {
    && (forall i: nat | i < |s| :: s[i].id % 512 == bucket)
    && (forall i: nat, j: nat | i < j < |s| :: s[i].id < s[j].id)
  }

  ghost predicate ListHolds<V>(s: seq<Entry<V>>, bucket: nat, contents: map<nat, V>)
  {
    && (forall i: nat | i < |s| :: s[i].id in contents && contents[s[i].id] == s[i].value)
    && (forall id: nat | id in contents && id % 512 == bucket :: Listed(s, id))
  }

  ghost predicate Listed<V>(s: seq<Entry<V>>, id: nat)
  {
    exists i: nat :: i < |s| && s[i].id == id
  }

  lemma InsertedOrder<V>(s: seq<Entry<V>>, k: nat, e: Entry<V>, bucket: nat)
    requires GoodList(s, bucket) && k <= |s| && e.id % 512 == bucket
    requires forall i: nat | i < k :: s[i].id < e.id
    requires k < |s| ==> e.id < s[k].id
    ensures GoodList(s[..k] + [e] + s[k..], bucket)
  {
    var t := s[..k] + [e] + s[k..];
    forall i: nat | k <= i < |s|
      ensures e.id < s[i].id
    {
      assert s[k].id <= s[i].id;
    }
    forall i: nat, j: nat | i < j < |t|
      ensures t[i].id < t[j].id
    {
    }
  }

  lemma InsertedList<V>(s: seq<Entry<V>>, k: nat, e: Entry<V>, bucket: nat, contents: map<nat, V>)
    requires GoodList(s, bucket) && ListHolds(s, bucket, contents) && k <= |s| && e.id % 512 == bucket
    requires forall i: nat | i < k :: s[i].id < e.id
    requires k < |s| ==> e.id < s[k].id
    ensures e.id !in contents
    ensures GoodList(s[..k] + [e] + s[k..], bucket) && ListHolds(s[..k] + [e] + s[k..], bucket, contents[e.id := e.value])
  {
    InsertedOrder(s, k, e, bucket);
    NotListed(s, bucket, e.id, k);
    hide GoodList;
    AllListed(s, k, e, bucket, contents);
    AllHeld(s, k, e, bucket, contents);
  }

  lemma AllListed<V>(s: seq<Entry<V>>, k: nat, e: Entry<V>, bucket: nat, contents: map<nat, V>)
    requires ListHolds(s, bucket, contents) && k <= |s|
    ensures forall id: nat | id in contents[e.id := e.value] && id % 512 == bucket :: Listed(s[..k] + [e] + s[k..], id)
  {
    var t := s[..k] + [e] + s[k..];
    forall id: nat | id in contents[e.id := e.value] && id % 512 == bucket
      ensures Listed(t, id)
    {
      if id == e.id {
        assert t[k].id == id;
      } else {
        assert Listed(s, id);
        var i: nat :| i < |s| && s[i].id == id;
        assert t[if i < k then i else i + 1].id == id;
      }
    }
  }

  lemma AllHeld<V>(s: seq<Entry<V>>, k: nat, e: Entry<V>, bucket: nat, contents: map<nat, V>)
    requires ListHolds(s, bucket, contents) && k <= |s| && !Listed(s, e.id)
    ensures var t, after := s[..k] + [e] + s[k..], contents[e.id := e.value];
            forall i: nat | i < |t| :: t[i].id in after && after[t[i].id] == t[i].value
  {
    var t, after := s[..k] + [e] + s[k..], contents[e.id := e.value];
    forall i: nat | i < |t|
      ensures t[i].id in after && after[t[i].id] == t[i].value
    {
      if i != k {
        var j := if i < k then i else i - 1;
        assert t[i] == s[j] && s[j].id in contents;
      }
    }
  }

  class Table<V> {
    const buckets: array<seq<Entry<V>>>
    ghost var contents: map<nat, V>

    ghost predicate Valid()
      reads this, buckets
    {
      && buckets.Length == 512
      && forall b: nat | b < 512 :: GoodList(buckets[b], b) && ListHolds(buckets[b], b, contents)
    }

    constructor ()
      ensures Valid() && contents == map[] && fresh(buckets)
    {
      buckets := new seq<Entry<V>>[512](_ => []);
      contents := map[];
    }

    /** htable_entry_exists() */
    method Exists(id: nat) returns (r: bool)
      requires Valid()
      ensures r == (id in contents)
    {
      var s := buckets[id % 512];
      var i := 0;
      while i < |s|
        invariant 0 <= i <= |s| && forall j: nat | j < i :: s[j].id < id
      {
        if id == s[i].id {
          return true;
        }
        if id < s[i].id {
          NotListed(s, id % 512, id, i);
          return false;
        }
        i := i + 1;
      }
      NotListed(s, id % 512, id, i);
      r := false;
    }

    /** get_htable_entry(): finds the entry, or puts a new one in its place. */
    method Get(id: nat, zero: V) returns (k: nat)
      requires Valid()
      modifies this, buckets
      ensures Valid() && contents == if id in old(contents) then old(contents) else old(contents)[id := zero]
      ensures k < |buckets[id % 512]| && buckets[id % 512][k].id == id
    {
      var s := buckets[id % 512];
      k := 0;
      while k < |s|
        invariant k <= |s| && forall j: nat | j < k :: s[j].id < id
      {
        if id == s[k].id {
          return;
        }
        if id < s[k].id {
          break;
        }
        k := k + 1;
      }
      InsertedList(s, k, Entry(id, zero), id % 512, contents);
      forall b: nat | b < 512 && b != id % 512
        ensures ListHolds(buckets[b], b, contents[id := zero])
      {
        OthersHold(buckets[b], b, contents, id, zero);
      }
      buckets[id % 512] := s[..k] + [Entry(id, zero)] + s[k..];
      contents := contents[id := zero];
    }

    /** apply_on_htable(), for a function that may report: every entry gets the
        function applied once. */
    method Apply(fn: (nat, V) -> Option<V>) returns (ok: bool)
      requires Valid()
      modifies this, buckets
      ensures ok <==> forall id | id in old(contents) :: fn(id, old(contents)[id]).Some?
      ensures ok ==> Valid() && contents == Mapped(old(contents), fn)
    {
      hide GoodList, ListHolds, Mapped;
      ghost var before := contents;
      for b := 0 to 512
        invariant contents == before
        invariant forall c: nat | c < b :: GoodList(buckets[c], c) && ListHolds(buckets[c], c, Mapped(before, fn)) && AllApply(before, fn, c)
        invariant forall c: nat | b <= c < 512 :: GoodList(buckets[c], c) && ListHolds(buckets[c], c, before)
      {
        var t;
        ok, t := ApplyList(buckets[b], fn, b, before);
        if !ok {
          return;
        }
        buckets[b] := t;
      }
      forall id | id in before
        ensures fn(id, before[id]).Some?
      {
        assert AllApply(before, fn, id % 512);
      }
      contents := Mapped(before, fn);
      ok := true;
    }

    /** One list of the table. */
    method ApplyList(s: seq<Entry<V>>, fn: (nat, V) -> Option<V>, ghost b: nat, ghost before: map<nat, V>) returns (ok: bool, t: seq<Entry<V>>)
      requires GoodList(s, b) && ListHolds(s, b, before)
      ensures ok <==> AllApply(before, fn, b)
      ensures ok ==> GoodList(t, b) && ListHolds(t, b, Mapped(before, fn))
    {
      hide GoodList, ListHolds, Mapped, AllApply;
      t := [];
      for i := 0 to |s|
        invariant |t| == i && forall j: nat | j < i :: fn(s[j].id, s[j].value) == Some(t[j].value) && t[j].id == s[j].id
      {
        var r := fn(s[i].id, s[i].value);
        if r.None? {
          Stops(s, b, before, fn, i);
          return false, t;
        }
        t := t + [Entry(s[i].id, r.value)];
      }
      Applied(s, t, b, before, fn);
      ok := true;
    }
  }

  ghost predicate AllApply<V>(contents: map<nat, V>, fn: (nat, V) -> Option<V>, bucket: nat)
  {
    forall id | id in contents && id % 512 == bucket :: fn(id, contents[id]).Some?
  }

  /** The map after the function was applied to each entry. */
  ghost function Mapped<V>(contents: map<nat, V>, fn: (nat, V) -> Option<V>): (r: map<nat, V>)
  {
    map id | id in contents && fn(id, contents[id]).Some? :: fn(id, contents[id]).value
  }

  lemma OthersHold<V>(s: seq<Entry<V>>, bucket: nat, contents: map<nat, V>, id: nat, value: V)
    requires ListHolds(s, bucket, contents) && GoodList(s, bucket) && id % 512 != bucket
    ensures ListHolds(s, bucket, contents[id := value])
  {
  }

  lemma Stops<V>(s: seq<Entry<V>>, bucket: nat, contents: map<nat, V>, fn: (nat, V) -> Option<V>, i: nat)
    requires GoodList(s, bucket) && ListHolds(s, bucket, contents) && i < |s| && fn(s[i].id, s[i].value).None?
    ensures !AllApply(contents, fn, bucket)
  {
  }

  lemma Applied<V>(s: seq<Entry<V>>, t: seq<Entry<V>>, bucket: nat, contents: map<nat, V>, fn: (nat, V) -> Option<V>)
    requires GoodList(s, bucket) && ListHolds(s, bucket, contents) && |t| == |s|
    requires forall j: nat | j < |s| :: fn(s[j].id, s[j].value) == Some(t[j].value) && t[j].id == s[j].id
    ensures AllApply(contents, fn, bucket) && GoodList(t, bucket) && ListHolds(t, bucket, Mapped(contents, fn))
  {
    forall id: nat | id in contents && id % 512 == bucket
      ensures Listed(t, id) && fn(id, contents[id]).Some?
    {
      assert Listed(s, id);
      var i: nat :| i < |s| && s[i].id == id;
      assert t[i].id == id && contents[s[i].id] == s[i].value;
    }
  }

  lemma NotListed<V>(s: seq<Entry<V>>, bucket: nat, id: nat, k: nat)
    requires GoodList(s, bucket) && k <= |s| && (forall j: nat | j < k :: s[j].id < id) && (k < |s| ==> id < s[k].id)
    ensures !Listed(s, id)
  {
    forall i: nat | k <= i < |s|
      ensures id < s[i].id
    {
      assert s[k].id <= s[i].id;
    }
  }
}
