/** What a table file holds, and why a lookup through the index block is exact: data blocks
  with consecutive runs of the entries, and an index entry for each of them whose key lies
  between its last key and the first key of the next block. */
module TableLayout {
  import opened Keys
  import opened Coding
  import opened Comparators
  import opened BlockFormat
  import opened Block
  import opened BlockIterator
  import opened TableFormat
  import opened FilterBlock

  // A data block, its place in the file, and the number of entries up to its end.
  datatype DataBlock = DataBlock(handle: Handle, contents: Bytes, layout: Layout, end: nat)

  function Start(bs: seq<DataBlock>, i: nat): nat
    requires i <= |bs|
  {
    if i == 0 then 0 else bs[i - 1].end
  }

  // These are the entries from `start` on.
  ghost predicate RunOf(pairs: seq<Pair>, entries: seq<Pair>, start: nat) {
    start + |pairs| <= |entries| && forall k :: 0 <= k < |pairs| ==> pairs[k] == entries[start + k]
  }

  ghost predicate BlockOk(entries: seq<Pair>, bs: seq<DataBlock>, i: nat)
    requires i < |bs|
  {
    && Start(bs, i) < bs[i].end <= |entries| && RunOf(bs[i].layout.pairs, entries, Start(bs, i))
    && |bs[i].layout.pairs| == bs[i].end - Start(bs, i)
    && Finished(bs[i].contents, bs[i].layout)
  }

  ghost predicate BlocksOk(entries: seq<Pair>, bs: seq<DataBlock>) {
    forall i :: 0 <= i < |bs| ==> BlockOk(entries, bs, i)
  }

  ghost predicate BlocksStored(crc: Checksum, file: Bytes, bs: seq<DataBlock>) {
    forall i :: 0 <= i < |bs| ==> BlockStored(crc, file, bs, i)
  }

  ghost predicate BlockStored(crc: Checksum, file: Bytes, bs: seq<DataBlock>, i: nat)
    requires i < |bs|
  {
    Stored(crc, file, bs[i].handle, bs[i].contents)
  }

  // The index key of a block that ends before entry `end`.
  function IndexKey(c: Comparator, entries: seq<Pair>, end: nat): Bytes
    requires 0 < end <= |entries|
  {
    if end < |entries| then c.findShortestSeparator(entries[end - 1].key, entries[end].key)
    else c.findShortSuccessor(entries[end - 1].key)
  }

  ghost predicate IndexAt(c: Comparator, entries: seq<Pair>, bs: seq<DataBlock>, index: seq<Pair>, i: nat)
    requires i < |bs| && i < |index|
  {
    && 0 < bs[i].end <= |entries|
    && index[i].key == IndexKey(c, entries, bs[i].end) && index[i].value == EncodeHandle(bs[i].handle)
  }

  ghost predicate IndexOk(c: Comparator, entries: seq<Pair>, bs: seq<DataBlock>, index: seq<Pair>) {
    |index| <= |bs| && forall i :: 0 <= i < |index| ==> IndexAt(c, entries, bs, index, i)
  }

  ghost predicate BlockFiltered(entries: seq<Pair>, bs: seq<DataBlock>, groups: seq<seq<Bytes>>, waiting: seq<Bytes>, i: nat)
    requires i < |bs|
  {
    forall q :: Start(bs, i) <= q < bs[i].end <= |entries| ==>
      entries[q].key in KeysAt(groups, waiting, bs[i].handle.offset / FILTER_BASE)
  }

  // Every key of a data block went into the filter that lookups in that block consult.
  ghost predicate FilterOk(entries: seq<Pair>, bs: seq<DataBlock>, groups: seq<seq<Bytes>>, waiting: seq<Bytes>) {
    forall i :: 0 <= i < |bs| ==> BlockFiltered(entries, bs, groups, waiting, i)
  }

  ghost predicate Ordered(less: (Bytes, Bytes) -> bool, entries: seq<Pair>) {
    forall i, j :: 0 <= i < j < |entries| ==> InOrder(less, entries, i, j)
  }

  predicate InOrder(less: (Bytes, Bytes) -> bool, entries: seq<Pair>, i: nat, j: nat)
    requires i < |entries| && j < |entries|
  {
    less(entries[i].key, entries[j].key)
  }

  // A complete table: every entry is in a data block and every data block in the index.
  ghost predicate Complete(c: Comparator, entries: seq<Pair>, bs: seq<DataBlock>, index: seq<Pair>) {
    && Ordered(c.less, entries) && BlocksOk(entries, bs) && IndexOk(c, entries, bs, index) && |index| == |bs|
    && Start(bs, |bs|) == |entries|
  }

  // p is the position of the first entry at or after the key.
  ghost predicate IsFirst(less: (Bytes, Bytes) -> bool, entries: seq<Pair>, key: Bytes, p: nat) {
    && p <= |entries|
    && (forall q :: 0 <= q < p ==> less(entries[q].key, key))
    && (p < |entries| ==> !less(entries[p].key, key))
  }

  lemma {:induction false} StartsAscend(entries: seq<Pair>, bs: seq<DataBlock>, i: nat, j: nat)
    requires BlocksOk(entries, bs) && i < j <= |bs|
    ensures Start(bs, i) < bs[i].end <= Start(bs, j) <= |entries|
    decreases j
  {
    assert BlockOk(entries, bs, i) && BlockOk(entries, bs, j - 1);
    if i < j - 1 {
      StartsAscend(entries, bs, i, j - 1);
    }
  }

  lemma NotBefore(less: (Bytes, Bytes) -> bool, entries: seq<Pair>, q: nat, p: nat, key: Bytes)
    requires Ordering(less) && Ordered(less, entries) && q <= p < |entries| && less(entries[p].key, key)
    ensures less(entries[q].key, key)
  {
    if q < p {
      assert InOrder(less, entries, q, p);
      Mixed(less, entries[q].key, entries[p].key, key);
    }
  }

  // The index keys of consecutive blocks, and the entries around them.
  lemma IndexKeyInPlace(c: Comparator, same: (Bytes, Bytes) -> bool, entries: seq<Pair>, bs: seq<DataBlock>,
      index: seq<Pair>, i: nat)
    requires Lawful(c, same) && Ordered(c.less, entries) && IndexOk(c, entries, bs, index) && i < |index|
    ensures 0 < bs[i].end <= |entries| && !c.less(index[i].key, entries[bs[i].end - 1].key)
    ensures bs[i].end < |entries| ==> c.less(index[i].key, entries[bs[i].end].key)
  {
    assert IndexAt(c, entries, bs, index, i);
    var e := bs[i].end;
    if e < |entries| {
      assert InOrder(c.less, entries, e - 1, e);
      assert Separates(c, entries[e - 1].key, entries[e].key);
    } else {
      assert Succeeds(c, entries[e - 1].key);
    }
  }

  lemma IndexAscends(c: Comparator, same: (Bytes, Bytes) -> bool, entries: seq<Pair>, bs: seq<DataBlock>, index: seq<Pair>)
    requires Lawful(c, same) && Complete(c, entries, bs, index)
    ensures AscendingKeys(c.less, index)
  {
    forall i, j | 0 <= i < j < |index|
      ensures c.less(index[i].key, index[j].key)
    {
      IndexKeyInPlace(c, same, entries, bs, index, i);
      IndexKeyInPlace(c, same, entries, bs, index, j);
      StartsAscend(entries, bs, i, j);
      assert BlockOk(entries, bs, j);
      var first, last := bs[i].end, bs[j].end - 1;
      if first < last {
        assert InOrder(c.less, entries, first, last);
        Mixed(c.less, index[i].key, entries[first].key, entries[last].key);
      }
      Mixed(c.less, index[i].key, entries[last].key, index[j].key);
    }
  }

  // A lookup key beyond every index key is beyond every entry.
  lemma BeyondTheIndex(c: Comparator, same: (Bytes, Bytes) -> bool, entries: seq<Pair>, bs: seq<DataBlock>,
      index: seq<Pair>, key: Bytes, p: nat)
    requires Lawful(c, same) && Complete(c, entries, bs, index) && IsFirst(c.less, entries, key, p)
    requires forall j :: 0 <= j < |index| ==> c.less(index[j].key, key)
    ensures p == |entries|
  {
    if p < |entries| {
      var last := |entries| - 1;
      IndexKeyInPlace(c, same, entries, bs, index, |bs| - 1);
      if c.less(entries[last].key, key) {
        NotBefore(c.less, entries, p, last, key);
      } else {
        Mixed(c.less, entries[last].key, index[|bs| - 1].key, key);
      }
    }
  }

  lemma NotEarlier(c: Comparator, same: (Bytes, Bytes) -> bool, entries: seq<Pair>, bs: seq<DataBlock>,
      index: seq<Pair>, key: Bytes, p: nat, i: nat)
    requires Lawful(c, same) && Complete(c, entries, bs, index) && IsFirst(c.less, entries, key, p) && i < |index|
    requires i > 0 ==> c.less(index[i - 1].key, key)
    ensures Start(bs, i) <= p
  {
    if p < Start(bs, i) {
      IndexKeyInPlace(c, same, entries, bs, index, i - 1);
      Mixed(c.less, entries[bs[i - 1].end - 1].key, index[i - 1].key, key);
      NotBefore(c.less, entries, p, bs[i - 1].end - 1, key);
    }
  }

  lemma NotLater(c: Comparator, same: (Bytes, Bytes) -> bool, entries: seq<Pair>, bs: seq<DataBlock>,
      index: seq<Pair>, key: Bytes, p: nat, i: nat)
    requires Lawful(c, same) && Ordered(c.less, entries) && IndexOk(c, entries, bs, index)
    requires IsFirst(c.less, entries, key, p) && i < |index| && !c.less(index[i].key, key)
    ensures p <= bs[i].end
  {
    IndexKeyInPlace(c, same, entries, bs, index, i);
    if p > bs[i].end {
      Mixed(c.less, index[i].key, entries[bs[i].end].key, key);
    }
  }

  lemma OtherUserKey(c: Comparator, same: (Bytes, Bytes) -> bool, entries: seq<Pair>, bs: seq<DataBlock>,
      index: seq<Pair>, key: Bytes, p: nat, i: nat)
    requires Lawful(c, same) && Ordered(c.less, entries) && IndexOk(c, entries, bs, index)
    requires IsFirst(c.less, entries, key, p) && i < |index| && !c.less(index[i].key, key) && p == bs[i].end < |entries|
    ensures !same(key, entries[p].key)
  {
    assert IndexAt(c, entries, bs, index, i);
    assert InOrder(c.less, entries, p - 1, p);
    assert NoneBetween(c, same, entries[p - 1].key, entries[p].key, key);
  }

  // The index leads to the block of the first entry at or after the key; only when that
  // entry has another user key can it lead to the block before.
  lemma IndexLeadsToBlock(c: Comparator, same: (Bytes, Bytes) -> bool, entries: seq<Pair>, bs: seq<DataBlock>,
      index: seq<Pair>, key: Bytes, p: nat, i: nat)
    requires Lawful(c, same) && Complete(c, entries, bs, index) && IsFirst(c.less, entries, key, p) && i < |index|
    requires forall j :: 0 <= j < i ==> c.less(index[j].key, key)
    requires !c.less(index[i].key, key)
    ensures Start(bs, i) <= p <= bs[i].end
    ensures p == bs[i].end < |entries| ==> !same(key, entries[p].key)
  {
    NotEarlier(c, same, entries, bs, index, key, p, i);
    NotLater(c, same, entries, bs, index, key, p, i);
    if p == bs[i].end < |entries| {
      OtherUserKey(c, same, entries, bs, index, key, p, i);
    }
  }

  // Where a search in the block of the index entry ends up.
  lemma SearchInBlock(less: (Bytes, Bytes) -> bool, entries: seq<Pair>, bs: seq<DataBlock>, key: Bytes, p: nat, i: nat, pos: nat)
    requires BlocksOk(entries, bs) && IsFirst(less, entries, key, p) && i < |bs|
    requires Start(bs, i) <= p <= bs[i].end && pos <= |bs[i].layout.pairs|
    requires forall k :: 0 <= k < pos ==> less(bs[i].layout.pairs[k].key, key)
    requires pos < |bs[i].layout.pairs| ==> !less(bs[i].layout.pairs[pos].key, key)
    ensures BlockOk(entries, bs, i)
    ensures Start(bs, i) + pos == p && (pos < |bs[i].layout.pairs| <==> p < bs[i].end)
    ensures pos < |bs[i].layout.pairs| ==> bs[i].layout.pairs[pos] == entries[p]
  {
    assert BlockOk(entries, bs, i);
    var s, pairs := Start(bs, i), bs[i].layout.pairs;
    assert forall k :: 0 <= k < |pairs| ==> pairs[k] == entries[s + k];
    assert p < bs[i].end ==> pairs[p - s] == entries[p];
  }
}
