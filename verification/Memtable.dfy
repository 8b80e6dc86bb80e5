/** MemTable::Add and Get (db/memtable.cc), WriteBatch insertion (db/write_batch.cc) and
  the merged input of a compaction, over sorted runs of entries. */
module Memtable {
  import opened Wrappers
  import opened Keys
  import opened Reads
  import Work = CompactionWork

  // Table::Insert: the list stays sorted. Equal keys are never inserted twice.
  function Insert(es: seq<Entry>, e: Entry): (r: seq<Entry>)
  {
    var i := LowerBound(es, e.ikey);
    es[..i] + [e] + es[i..]
  }

  lemma InsertMembers(es: seq<Entry>, e: Entry)
    ensures forall x :: x in Insert(es, e) <==> x in es || x == e
  {
    var i := LowerBound(es, e.ikey);
    assert es == es[..i] + es[i..];
  }

  lemma PastLowerBound(es: seq<Entry>, e: Entry, k: nat)
    requires Ascending(es) && LowerBound(es, e.ikey) <= k < |es|
    requires Tag(es[LowerBound(es, e.ikey)].ikey) != Tag(e.ikey)
    ensures Less(e.ikey, es[k].ikey)
  {
    var i := LowerBound(es, e.ikey);
    assert i == k || Less(es[i].ikey, es[k].ikey);
  }

  lemma InsertKeepsOrder(es: seq<Entry>, e: Entry)
    requires Ascending(es) && forall x :: x in es ==> x.ikey.sequence != e.ikey.sequence
    ensures Ascending(Insert(es, e))
  {
    var i := LowerBound(es, e.ikey);
    forall k | i <= k < |es|
      ensures Less(e.ikey, es[k].ikey)
    {
      assert es[i] in es;
      PastLowerBound(es, e, k);
    }
    assert Ascending(es[..i] + [e]);
  }

  // MemTable::Get: the first entry at or after the lookup key, if it has the user key.
  function Get(es: seq<Entry>, u: UserKey, s: nat): (hit: Option<Entry>) {
    var i := LowerBound(es, LookupKey(u, s));
    if i < |es| && es[i].ikey.user == u then Some(es[i]) else None
  }

  lemma GetIsNewest(es: seq<Entry>, u: UserKey, s: nat)
    requires Ascending(es)
    ensures Get(es, u, s).Some? ==> IsNewest(Work.AsSet(es), u, s, Get(es, u, s).value)
    ensures Get(es, u, s).None? ==> forall e :: e in es ==> !Candidate(u, s, e)
  {
    var i := LowerBound(es, LookupKey(u, s));
    forall k | 0 <= k < |es| && Candidate(u, s, es[k])
      ensures i <= k && es[i].ikey.user == u && es[k].ikey.sequence <= es[i].ikey.sequence
    {
      LookupKeyBound(u, s, es[k].ikey);
      assert i <= k;
      assert i == k || Less(es[i].ikey, es[k].ikey);
    }
  }

  // The merging iterator over two children; with distinct keys the last case never skips.
  function Merge(a: seq<Entry>, b: seq<Entry>): seq<Entry> {
    if a == [] then b
    else if b == [] then a
    else if Less(a[0].ikey, b[0].ikey) then [a[0]] + Merge(a[1..], b)
    else if Less(b[0].ikey, a[0].ikey) then [b[0]] + Merge(a, b[1..])
    else [a[0]] + Merge(a[1..], b[1..])
  }

  lemma AscendingCons(e: Entry, es: seq<Entry>)
    requires Ascending(es) && forall x :: x in es ==> Less(e.ikey, x.ikey)
    ensures Ascending([e] + es)
  {
  }

  lemma AscendingTail(es: seq<Entry>)
    requires Ascending(es) && es != []
    ensures Ascending(es[1..]) && forall x :: x in es[1..] ==> Less(es[0].ikey, x.ikey)
    ensures forall x :: x in es <==> x == es[0] || x in es[1..]
  {
  }

  lemma {:induction false} MergeIsSortedUnion(a: seq<Entry>, b: seq<Entry>)
    requires Ascending(a) && Ascending(b)
    requires forall x, y :: x in a && y in b && x.ikey.sequence == y.ikey.sequence ==> x == y
    ensures Ascending(Merge(a, b))
    ensures forall x :: x in Merge(a, b) <==> x in a || x in b
    decreases |a| + |b|
  {
    if a != [] && b != [] {
      AscendingTail(a);
      AscendingTail(b);
      if Less(a[0].ikey, b[0].ikey) {
        MergeIsSortedUnion(a[1..], b);
        AscendingCons(a[0], Merge(a[1..], b));
      } else if Less(b[0].ikey, a[0].ikey) {
        MergeIsSortedUnion(a, b[1..]);
        AscendingCons(b[0], Merge(a, b[1..]));
      } else {
        assert a[0] in a && b[0] in b;
        MergeIsSortedUnion(a[1..], b[1..]);
        AscendingCons(a[0], Merge(a[1..], b[1..]));
      }
    }
  }
}
