/** Reading a table file (table/table.cc): Open, and lookups that are exact on every file that
  a TableBuilder finished. */
module Table {
  import opened Wrappers
  import opened Keys
  import opened Coding
  import opened Comparators
  import opened BlockFormat
  import opened Block
  import opened BlockIterator
  import opened TableFormat
  import opened FilterBlock
  import opened TableLayout
  import opened TableStates
  import Separators

  datatype ReadOptions = ReadOptions(comparator: Comparator, crc: Checksum, policy: Option<NamedPolicy>, verify: bool)

  // Table::Rep.
  datatype Table = Table(options: ReadOptions, file: Bytes, indexBlock: Bytes, metaindexHandle: Handle,
                         filter: Option<FilterBlockReader>)

  // What Table::Open makes of a finished table.
  ghost predicate Opened(o: Options, t: TableFile, r: Table) {
    && r.options.comparator == o.comparator && r.options.crc == o.crc
    && IsTable(o, r.file, t)
    && r.indexBlock == t.index.contents && r.metaindexHandle == t.meta.handle
    && r.filter == FilterFor(o, t, r.options.policy)
  }

  // The filter is used when reader and writer name the same policy.
  ghost function FilterFor(o: Options, t: TableFile, policy: Option<NamedPolicy>): Option<FilterBlockReader> {
    if policy.Some? && o.policy.Some? && policy.value.name == o.policy.value.name then
      Some(OpenFilters(policy.value.policy, Contents(o.policy.value.policy, t.groups)))
    else
      None
  }

  lemma BytewiseOrder()
    ensures Transitive(BytewiseLess)
  {
    forall a, b, c | BytewiseLess(a, b) && BytewiseLess(b, c)
      ensures BytewiseLess(a, c)
    {
      Separators.BytewiseTransitive(a, b, c);
    }
  }

  lemma NameNotLess(name: Bytes)
    ensures !BytewiseLess(name, name)
  {
    Separators.BytewiseTotal(name, name);
  }

  // Table::ReadMeta and ReadFilter. The metaindex is not needed for operation: on any error
  // there is no filter.
  method ReadMeta(options: ReadOptions, file: Bytes, metaindexHandle: Handle, ghost o: Options, ghost t: TableFile)
    returns (filter: Option<FilterBlockReader>)
    requires IsTable(o, file, t) && metaindexHandle == t.meta.handle && options.crc == o.crc
    ensures filter == FilterFor(o, t, options.policy)
  {
    if options.policy.None? {
      return None;
    }
    ReadsStored(o.crc, file, t.meta.handle, t.meta.contents, options.verify);
    var contents := ReadBlock(options.crc, file, metaindexHandle, options.verify);
    if contents.None? {
      return None;
    }
    BytewiseOrder();
    var iter := new Iter(contents.value, BytewiseLess, t.meta.layout);
    var key := FILTER_PREFIX + options.policy.value.name;
    MetaKey(o, t, options.policy.value.name);
    iter.Seek(key);
    iter.ValidMeans();
    NameNotLess(key);
    filter := None;
    if iter.Valid() && iter.key == key {
      var value := iter.data[iter.valueStart..iter.valueEnd];
      filter := ReadFilter(options, file, value, o, t);
    }
  }

  lemma MetaKey(o: Options, t: TableFile, name: Bytes)
    requires o.policy.Some? ==> |o.policy.value.name| < 0x8000_0000
    requires t.meta.layout.pairs == MetaPairs(o.policy, t.filterHandle)
    ensures |t.meta.layout.pairs| <= 1 && (o.policy.None? <==> t.meta.layout.pairs == [])
    ensures o.policy.Some? ==> t.meta.layout.pairs[0].value == EncodeHandle(t.filterHandle)
    ensures o.policy.Some? ==> (t.meta.layout.pairs[0].key == FILTER_PREFIX + name <==> name == o.policy.value.name)
    ensures AscendingKeys(BytewiseLess, t.meta.layout.pairs)
  {
    if o.policy.Some? {
      assert (FILTER_PREFIX + name)[7..] == name;
      assert (FILTER_PREFIX + o.policy.value.name)[7..] == o.policy.value.name;
    }
  }

  method ReadFilter(options: ReadOptions, file: Bytes, value: Bytes, ghost o: Options, ghost t: TableFile)
    returns (filter: Option<FilterBlockReader>)
    requires options.policy.Some? && o.policy.Some? && options.policy.value.name == o.policy.value.name
    requires FilterStored(o, file, t) && value == EncodeHandle(t.filterHandle) && options.crc == o.crc
    ensures filter == FilterFor(o, t, options.policy)
  {
    HandleRoundTrip(t.filterHandle, []);
    assert value + [] == value;
    var handle := DecodeHandle(value);
    if handle.None? {
      return None;
    }
    ReadsStored(o.crc, file, t.filterHandle, Contents(o.policy.value.policy, t.groups), options.verify);
    var block := ReadBlock(options.crc, file, handle.value.value, options.verify);
    if block.None? {
      return None;
    }
    filter := Some(OpenFilters(options.policy.value.policy, block.value));
  }

  // Table::Open; None for a file that is not a table.
  method Open(options: ReadOptions, file: Bytes, ghost o: Options, ghost t: TableFile) returns (r: Option<Table>)
    requires IsTable(o, file, t) && options.comparator == o.comparator && options.crc == o.crc
    ensures r.Some? && r.value.file == file && r.value.options == options && Opened(o, t, r.value)
  {
    if |file| < FOOTER_LENGTH {
      return None;
    }
    FooterRoundTrip(t.meta.handle, t.index.handle);
    var footer := DecodeFooter(file[|file| - FOOTER_LENGTH..]);
    if footer.None? {
      return None;
    }
    ReadsStored(o.crc, file, t.index.handle, t.index.contents, options.verify);
    var index := ReadBlock(options.crc, file, footer.value.1, options.verify);
    if index.None? {
      return None;
    }
    var filter := ReadMeta(options, file, footer.value.0, o, t);
    r := Some(Table(options, file, index.value, footer.value.0, filter));
  }

  // The filter made of these keys lets every key pass that counts as one of them.
  ghost predicate LetsPass(made: FilterPolicy, used: FilterPolicy, same: (Bytes, Bytes) -> bool, keys: seq<Bytes>, a: Bytes, b: Bytes) {
    a in keys && same(b, a) ==> used.mayMatch(b, made.create(keys))
  }

  ghost predicate NeverHides(made: FilterPolicy, used: FilterPolicy, same: (Bytes, Bytes) -> bool) {
    forall keys, a, b :: LetsPass(made, used, same, keys, a, b)
  }

  ghost predicate PoliciesAgree(o: Options, r: Table, same: (Bytes, Bytes) -> bool) {
    r.filter.Some? && o.policy.Some? && r.options.policy.Some? ==>
      NeverHides(o.policy.value.policy, r.options.policy.value.policy, same)
  }

  // What the code reads through an index entry, without the search.
  lemma FilterLetsThrough(o: Options, t: TableFile, r: Table, same: (Bytes, Bytes) -> bool, key: Bytes, p: nat, i: nat)
    requires Opened(o, t, r) && r.filter.Some? && PoliciesAgree(o, r, same)
    requires i < |t.blocks| && Start(t.blocks, i) <= p < t.blocks[i].end && p < |t.entries| && same(key, t.entries[p].key)
    ensures r.filter.value.KeyMayMatch(t.blocks[i].handle.offset, key)
  {
    var made, used := o.policy.value.policy, r.options.policy.value.policy;
    var index := t.blocks[i].handle.offset / FILTER_BASE;
    assert BlockFiltered(t.entries, t.blocks, t.groups, [], i);
    assert BlockOk(t.entries, t.blocks, i);
    assert t.entries[p].key in KeysAt(t.groups, [], index);
    assert index < |t.groups| && LetsPass(made, used, same, t.groups[index], t.entries[p].key, key);
    ReadsItsFilter(made, used, t.groups, t.blocks[i].handle.offset, key, index);
  }

  lemma OrderingIsTransitive(less: (Bytes, Bytes) -> bool)
    requires Ordering(less)
    ensures Transitive(less)
  {
    forall a, b, c | less(a, b) && less(b, c)
      ensures less(a, c)
    {
      Mixed(less, a, b, c);
    }
  }

  // An iterator on the index block, at the first index key at or after the key.
  method SeekIndex(r: Table, key: Bytes, ghost o: Options, ghost t: TableFile, ghost same: (Bytes, Bytes) -> bool)
    returns (iter: Iter)
    requires Opened(o, t, r) && Lawful(o.comparator, same)
    ensures fresh(iter) && iter.Ok() && iter.layout == t.index.layout && (iter.Valid() <==> iter.pos < |t.blocks|)
    ensures iter.Valid() ==> iter.data[iter.valueStart..iter.valueEnd] == EncodeHandle(t.blocks[iter.pos].handle)
    ensures forall j :: 0 <= j < iter.pos ==> o.comparator.less(t.index.layout.pairs[j].key, key)
    ensures iter.Valid() ==> !o.comparator.less(t.index.layout.pairs[iter.pos].key, key)
  {
    OrderingIsTransitive(o.comparator.less);
    IndexAscends(o.comparator, same, t.entries, t.blocks, t.index.layout.pairs);
    iter := new Iter(r.indexBlock, r.options.comparator.less, t.index.layout);
    iter.Seek(key);
    iter.ValidMeans();
    if iter.Valid() {
      assert IndexAt(o.comparator, t.entries, t.blocks, t.index.layout.pairs, iter.pos);
    }
  }

  // The search in one data block.
  method SearchBlock(r: Table, handle: Handle, key: Bytes, ghost o: Options, ghost t: TableFile,
      ghost same: (Bytes, Bytes) -> bool, ghost p: nat, ghost i: nat)
    returns (found: Option<(Bytes, Bytes)>, ok: bool)
    requires Opened(o, t, r) && Lawful(o.comparator, same) && IsFirst(o.comparator.less, t.entries, key, p)
    requires i < |t.blocks| && handle == t.blocks[i].handle && Start(t.blocks, i) <= p <= t.blocks[i].end
    ensures ok && (found.Some? <==> p < t.blocks[i].end)
    ensures found.Some? ==> p < |t.entries| && found.value == (t.entries[p].key, t.entries[p].value)
  {
    assert BlockStored(o.crc, r.file, t.blocks, i);
    assert BlockOk(t.entries, t.blocks, i);
    ReadsStored(o.crc, r.file, t.blocks[i].handle, t.blocks[i].contents, r.options.verify);
    var contents := ReadBlock(r.options.crc, r.file, handle, r.options.verify);
    if contents.None? {
      return None, false;
    }
    OrderingIsTransitive(o.comparator.less);
    BlockAscends(o.comparator.less, t.entries, t.blocks, i);
    var iter := new Iter(contents.value, r.options.comparator.less, t.blocks[i].layout);
    iter.Seek(key);
    iter.ValidMeans();
    SearchInBlock(o.comparator.less, t.entries, t.blocks, key, p, i, iter.pos);
    ok, found := true, None;
    if iter.Valid() {
      found := Some((iter.key, iter.data[iter.valueStart..iter.valueEnd]));
    }
  }

  lemma BlockAscends(less: (Bytes, Bytes) -> bool, entries: seq<Pair>, bs: seq<DataBlock>, i: nat)
    requires Ordered(less, entries) && i < |bs| && BlockOk(entries, bs, i)
    ensures AscendingKeys(less, bs[i].layout.pairs)
  {
    var pairs, s := bs[i].layout.pairs, Start(bs, i);
    forall j, k | 0 <= j < k < |pairs|
      ensures less(pairs[j].key, pairs[k].key)
    {
      assert InOrder(less, entries, s + j, s + k);
    }
  }

  // Table::InternalGet: what is handed to the callback, if anything. It is the first entry at
  // or after the key, and it is missed only when it does not count as the same key.
  method InternalGet(r: Table, key: Bytes, ghost o: Options, ghost t: TableFile, ghost same: (Bytes, Bytes) -> bool, ghost p: nat)
    returns (found: Option<(Bytes, Bytes)>, ok: bool)
    requires Opened(o, t, r) && Lawful(o.comparator, same) && PoliciesAgree(o, r, same)
    requires IsFirst(o.comparator.less, t.entries, key, p)
    ensures ok
    ensures found.Some? ==> p < |t.entries| && found.value == (t.entries[p].key, t.entries[p].value)
    ensures p < |t.entries| && same(key, t.entries[p].key) ==> found.Some?
  {
    found, ok := None, true;
    var iiter := SeekIndex(r, key, o, t, same);
    if iiter.Valid() {
      ghost var i := iiter.pos;
      IndexLeadsToBlock(o.comparator, same, t.entries, t.blocks, t.index.layout.pairs, key, p, i);
      assert BlockOk(t.entries, t.blocks, i);
      var handleValue := iiter.data[iiter.valueStart..iiter.valueEnd];
      HandleRoundTrip(t.blocks[i].handle, []);
      assert handleValue + [] == handleValue;
      var handle := DecodeHandle(handleValue);
      if r.filter.Some? && handle.Some? && !r.filter.value.KeyMayMatch(handle.value.value.offset, key) {
        // Not found.
        if p < |t.entries| && same(key, t.entries[p].key) {
          FilterLetsThrough(o, t, r, same, key, p, i);
        }
      } else {
        found, ok := SearchBlock(r, handle.value.value, key, o, t, same, p, i);
      }
    } else {
      BeyondTheIndex(o.comparator, same, t.entries, t.blocks, t.index.layout.pairs, key, p);
    }
  }

  // Table::ApproximateOffsetOf: where the block begins that holds the first entry at or after
  // the key, or that ends just before it; past the last entry, the end of the data.
  method ApproximateOffsetOf(r: Table, key: Bytes, ghost o: Options, ghost t: TableFile, ghost same: (Bytes, Bytes) -> bool,
      ghost p: nat)
    returns (result: nat, ghost i: nat)
    requires Opened(o, t, r) && Lawful(o.comparator, same) && IsFirst(o.comparator.less, t.entries, key, p)
    ensures i <= |t.blocks|
    ensures i < |t.blocks| ==> result == t.blocks[i].handle.offset && Start(t.blocks, i) <= p <= t.blocks[i].end
    ensures i == |t.blocks| ==> result == t.meta.handle.offset && p == |t.entries|
  {
    var iter := SeekIndex(r, key, o, t, same);
    i := iter.pos;
    if iter.Valid() {
      IndexLeadsToBlock(o.comparator, same, t.entries, t.blocks, t.index.layout.pairs, key, p, i);
      var input := iter.data[iter.valueStart..iter.valueEnd];
      HandleRoundTrip(t.blocks[i].handle, []);
      assert input + [] == input;
      var handle := DecodeHandle(input);
      if handle.Some? {
        result := handle.value.value.offset;
      } else {
        result := r.metaindexHandle.offset;
      }
    } else {
      BeyondTheIndex(o.comparator, same, t.entries, t.blocks, t.index.layout.pairs, key, p);
      result := r.metaindexHandle.offset;
    }
  }
}
