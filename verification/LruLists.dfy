/** The circular doubly linked lists of the cache (util/cache.cc: LRU_Remove, LRU_Append): the
  next and prev fields of all handles and of the two list heads, as maps. */
module LruLists {
  import opened HandleTables

  datatype Links = Links(next: map<Id, Id>, prev: map<Id, Id>)

  // The i-th stop on the way round, the head being the first and the last.
  function Stop(head: Id, list: seq<Id>, i: nat): Id
    requires i <= |list| + 1
  {
    if i == 0 || i == |list| + 1 then head else list[i - 1]
  }

  ghost predicate LinkedAt(l: Links, head: Id, list: seq<Id>, i: nat)
    requires i <= |list|
  {
    var a, b := Stop(head, list, i), Stop(head, list, i + 1);
    a in l.next && l.next[a] == b && b in l.prev && l.prev[b] == a
  }

  // Going round from the head, one meets exactly this list, in both directions.
  ghost predicate Ring(l: Links, head: Id, list: seq<Id>) {
    && NoDuplicates(list) && head !in list
    && forall i :: 0 <= i <= |list| ==> LinkedAt(l, head, list, i)
  }

  // Links of other handles do not matter.
  lemma RingKept(l: Links, l': Links, head: Id, list: seq<Id>)
    requires Ring(l, head, list)
    requires forall x :: (x == head || x in list) && x in l.next ==> x in l'.next && l'.next[x] == l.next[x]
    requires forall x :: (x == head || x in list) && x in l.prev ==> x in l'.prev && l'.prev[x] == l.prev[x]
    ensures Ring(l', head, list)
  {
    forall i | 0 <= i <= |list|
      ensures LinkedAt(l', head, list, i)
    {
      assert LinkedAt(l, head, list, i);
    }
  }

  // e->next->prev = e->prev; e->prev->next = e->next
  function Unlink(l: Links, e: Id): Links
    requires e in l.next && e in l.prev
  {
    Links(l.next[l.prev[e] := l.next[e]], l.prev[l.next[e] := l.prev[e]])
  }

  // Insert e just before the head.
  function Append(l: Links, head: Id, e: Id): Links
    requires head in l.prev
  {
    var last := l.prev[head];
    Links(l.next[e := head][last := e], l.prev[e := last][head := e])
  }

  lemma StopsDiffer(head: Id, list: seq<Id>, i: nat, j: nat)
    requires NoDuplicates(list) && head !in list && i <= |list| && j <= |list|
    ensures Stop(head, list, i) == Stop(head, list, j) <==> i == j
    ensures Stop(head, list, i + 1) == Stop(head, list, j + 1) <==> i == j
  {
  }

  lemma AppendRing(l: Links, head: Id, list: seq<Id>, e: Id)
    requires Ring(l, head, list) && e != head && e !in list
    ensures head in l.prev && l.prev[head] == Stop(head, list, |list|)
    ensures Ring(Append(l, head, e), head, list + [e])
  {
    assert LinkedAt(l, head, list, |list|);
    var l', more := Append(l, head, e), list + [e];
    forall i | 0 <= i <= |more|
      ensures LinkedAt(l', head, more, i)
    {
      if i < |list| {
        assert LinkedAt(l, head, list, i);
        StopsDiffer(head, list, i, |list|);
        assert Stop(head, more, i) == Stop(head, list, i) && Stop(head, more, i + 1) == Stop(head, list, i + 1);
      }
    }
  }

  lemma UnlinkRing(l: Links, head: Id, list: seq<Id>, k: nat)
    requires Ring(l, head, list) && k < |list|
    ensures list[k] in l.next && list[k] in l.prev
    ensures l.prev[list[k]] == Stop(head, list, k) && l.next[list[k]] == Stop(head, list, k + 2)
    ensures Ring(Unlink(l, list[k]), head, Without(list, k))
  {
    assert LinkedAt(l, head, list, k) && LinkedAt(l, head, list, k + 1);
    var l', less := Unlink(l, list[k]), Without(list, k);
    WithoutHas(list, k);
    forall i | 0 <= i <= |less|
      ensures LinkedAt(l', head, less, i)
    {
      var j := if i <= k then i else i + 1;
      assert Stop(head, less, i) == Stop(head, list, j);
      assert Stop(head, less, i + 1) == Stop(head, list, if i < k then i + 1 else i + 2);
      if i != k {
        assert LinkedAt(l, head, list, j);
        StopsDiffer(head, list, j, k);
        StopsDiffer(head, list, j, k + 1);
      }
    }
  }

  // Two lists with nothing in common: changing one leaves the other.
  ghost predicate Apart(h1: Id, l1: seq<Id>, h2: Id, l2: seq<Id>) {
    h1 != h2 && h1 !in l2 && h2 !in l1 && forall x :: x in l1 ==> x !in l2
  }

  lemma AppendKeeps(l: Links, head: Id, list: seq<Id>, e: Id, head2: Id, list2: seq<Id>)
    requires Ring(l, head, list) && Ring(l, head2, list2) && Apart(head, list, head2, list2)
    requires e != head2 && e !in list2
    ensures head in l.prev && Ring(Append(l, head, e), head2, list2)
  {
    assert LinkedAt(l, head, list, |list|);
    RingKept(l, Append(l, head, e), head2, list2);
  }

  lemma UnlinkKeeps(l: Links, head: Id, list: seq<Id>, k: nat, head2: Id, list2: seq<Id>)
    requires Ring(l, head, list) && Ring(l, head2, list2) && Apart(head, list, head2, list2) && k < |list|
    ensures list[k] in l.next && list[k] in l.prev && Ring(Unlink(l, list[k]), head2, list2)
  {
    UnlinkRing(l, head, list, k);
    RingKept(l, Unlink(l, list[k]), head2, list2);
  }
}
