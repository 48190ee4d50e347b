/** The in-memory table of a volume's object map: for each object id, a list of
    records in order of transaction (apfsck/btree.c:746-876). */
module Omap {

  datatype Rec = Rec(xid: nat, bno: nat, deleted: bool, noheader: bool, seen: bool, seenForLatest: bool, seenForSnap: bool)

  /** The lists, by object id. */
  type Table = map<nat, seq<Rec>>

  ghost predicate Ordered(s: seq<Rec>)
  {
    forall i: nat, j: nat | i < j < |s| :: s[i].xid < s[j].xid
  }

  ghost predicate GoodTable(t: Table)
  {
    forall oid | oid in t :: Ordered(t[oid])
  }

  function ListOf(t: Table, oid: nat): (s: seq<Rec>)
  {
    if oid in t then t[oid] else []
  }

  lemma ListOrdered(t: Table, oid: nat)
    requires GoodTable(t)
    ensures Ordered(ListOf(t, oid))
  {
  }

  /** A list with one more record, in its place. */
  lemma Inserted(s: seq<Rec>, k: nat, r: Rec)
    requires Ordered(s) && k <= |s|
    requires forall i: nat | i < k :: s[i].xid < r.xid
    requires k < |s| ==> r.xid < s[k].xid
    ensures Ordered(s[..k] + [r] + s[k..])
  {
    var t := s[..k] + [r] + s[k..];
    forall i: nat, j: nat | i < j < |t|
      ensures t[i].xid < t[j].xid
    {
      assert k < |s| && j > k ==> s[k].xid <= s[j - 1].xid;
    }
  }

  class OmapTable {
    var table: Table

    /** get_omap_record(): finds the record, or adds an empty one. */
    method GetRecord(oid: nat, xid: nat) returns (k: nat)
      requires GoodTable(table)
      modifies this
      ensures GoodTable(table) && oid in table && k < |table[oid]| && table[oid][k].xid == xid
      ensures var s := ListOf(old(table), oid);
              if exists i: nat :: i < |s| && s[i].xid == xid then table == old(table)[oid := s]
              else k <= |s| && table == old(table)[oid := s[..k] + [Rec(xid, 0, false, false, false, false, false)] + s[k..]]
    {
      var s := ListOf(table, oid);
      ListOrdered(table, oid);
      k := 0;
      while k < |s|
        invariant k <= |s| && forall i: nat | i < k :: s[i].xid < xid
      {
        if xid == s[k].xid {
          table := table[oid := s];
          return;
        }
        if xid < s[k].xid {
          break;
        }
        k := k + 1;
      }
      var new_ := Rec(xid, 0, false, false, false, false, false);
      Inserted(s, k, new_);
      table := table[oid := s[..k] + [new_] + s[k..]];
    }

    /** The part of parse_omap_record() that fills in the record: the same id and
        transaction must not come twice, unless the first had no block. */
    method AddRecord(oid: nat, xid: nat, bno: nat, deleted: bool, noheader: bool) returns (ok: bool)
      requires GoodTable(table)
      modifies this
      ensures GoodTable(table)
      ensures ok <==> forall i: nat | i < |ListOf(old(table), oid)| && ListOf(old(table), oid)[i].xid == xid :: ListOf(old(table), oid)[i].bno == 0
      ensures ok ==> oid in table && exists k: nat ::
                k < |table[oid]| && table[oid][k].xid == xid && table[oid][k].bno == bno
                && table[oid][k].deleted == deleted && table[oid][k].noheader == noheader
      ensures forall o: nat | o in old(table) && o != oid :: o in table && table[o] == old(table)[o]
    {
      ghost var s := ListOf(table, oid);
      ListOrdered(table, oid);
      var k := GetRecord(oid, xid);
      var r := table[oid][k];
      if r.bno != 0 {
        return false;
      }
      assert Ordered(table[oid]);
      var filled := r.(bno := bno, deleted := deleted, noheader := noheader);
      table := table[oid := table[oid][k := filled]];
      assert table[oid][k] == filled;
      ok := true;
    }

    /** get_latest_omap_record(): the last record that is not too recent. */
    method GetLatest(oid: nat, xid: nat) returns (k: int)
      requires GoodTable(table)
      modifies this
      ensures table == old(table)[oid := ListOf(old(table), oid)]
      ensures IsLatest(table[oid], xid, k)
    {
      var s := ListOf(table, oid);
      ListOrdered(table, oid);
      table := table[oid := s];
      k := -1;
      for i := 0 to |s|
        invariant k == i - 1 && forall j: nat | j < i :: s[j].xid <= xid
      {
        if xid < s[i].xid {
          break;
        }
        k := i;
      }
    }
  }

  /** Of the records up to a transaction, record k is the most recent; -1 means
      that there is none. */
  ghost predicate IsLatest(s: seq<Rec>, xid: nat, k: int)
  {
    && -1 <= k < |s|
    && (k >= 0 ==> s[k].xid <= xid)
    && forall j: nat | j < |s| && s[j].xid <= xid :: k >= 0 && j <= k && s[j].xid <= s[k].xid
  }
}
