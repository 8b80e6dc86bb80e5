/** The states of a table file under construction, and what each step of the builder
  (table/table_builder.cc) does to them. */
module TableStates {
  import opened Wrappers
  import opened Keys
  import opened Coding
  import opened Comparators
  import opened BlockFormat
  import opened Block
  import opened TableFormat
  import opened FilterBlock
  import opened TableLayout

  datatype NamedPolicy = NamedPolicy(name: Bytes, policy: FilterPolicy)

  datatype Options = Options(comparator: Comparator, crc: Checksum, policy: Option<NamedPolicy>, blockSize: nat, restartInterval: nat)

  datatype StoredBlock = StoredBlock(handle: Handle, contents: Bytes, layout: Layout)

  // Everything in a finished file.
  datatype TableFile = TableFile(entries: seq<Pair>, blocks: seq<DataBlock>, index: StoredBlock, meta: StoredBlock,
                                 filterHandle: Handle, groups: seq<seq<Bytes>>)

  // "filter."
  const FILTER_PREFIX: Bytes := [0x66, 0x69, 0x6c, 0x74, 0x65, 0x72, 0x2e]

  ghost predicate IsStored(crc: Checksum, file: Bytes, b: StoredBlock) {
    Stored(crc, file, b.handle, b.contents) && Finished(b.contents, b.layout)
  }

  function MetaPairs(policy: Option<NamedPolicy>, filterHandle: Handle): seq<Pair>
    requires policy.Some? ==> |policy.value.name| < 0x8000_0000
  {
    if policy.None? then []
    else
      HandleSize(filterHandle);
      [Pair(FILTER_PREFIX + policy.value.name, EncodeHandle(filterHandle))]
  }

  ghost predicate FilterStored(o: Options, file: Bytes, t: TableFile)
    requires o.policy.Some?
  {
    && FilterOk(t.entries, t.blocks, t.groups, [])
    && |Filters(o.policy.value.policy, t.groups, |t.groups|)| < 0x1_0000_0000
    && Stored(o.crc, file, t.filterHandle, Contents(o.policy.value.policy, t.groups))
  }

  // The file before the footer.
  ghost predicate IsBody(o: Options, file: Bytes, t: TableFile) {
    && Complete(o.comparator, t.entries, t.blocks, t.index.layout.pairs)
    && BlocksStored(o.crc, file, t.blocks)
    && IsStored(o.crc, file, t.index) && IsStored(o.crc, file, t.meta)
    && (o.policy.Some? ==> |o.policy.value.name| < 0x8000_0000 && FilterStored(o, file, t))
    && t.meta.layout.pairs == MetaPairs(o.policy, t.filterHandle)
  }

  ghost predicate IsTable(o: Options, file: Bytes, t: TableFile) {
    && IsBody(o, file, t)
    && |file| >= FOOTER_LENGTH && file[|file| - FOOTER_LENGTH..] == EncodeFooter(t.meta.handle, t.index.handle)
  }

  // What holds between two calls; `data` and `index` are what the two block builders hold.
  datatype Progress = Progress(entries: seq<Pair>, blocks: seq<DataBlock>, index: seq<Pair>, data: seq<Pair>)

  ghost predicate Consistent(c: Comparator, p: Progress) {
    && Ordered(c.less, p.entries) && BlocksOk(p.entries, p.blocks) && IndexOk(c, p.entries, p.blocks, p.index)
    && RunOf(p.data, p.entries, Start(p.blocks, |p.blocks|)) && Start(p.blocks, |p.blocks|) + |p.data| == |p.entries|
    && (forall i :: 0 <= i < |p.index| ==> Followed(p, i))
  }

  // Block i is not the last to hold an entry.
  ghost predicate Followed(p: Progress, i: nat) {
    i < |p.blocks| && p.blocks[i].end < |p.entries|
  }

  ghost predicate Awaits(p: Progress, pending: bool) {
    |p.blocks| == |p.index| + (if pending then 1 else 0) && (pending ==> p.data == [])
  }

  ghost predicate FilterUpTo(p: Progress, groups: seq<seq<Bytes>>, waiting: seq<Bytes>, offset: nat) {
    && FilterOk(p.entries, p.blocks, groups, waiting) && |groups| == offset / FILTER_BASE
    && forall e :: e in p.data ==> e.key in KeysAt(groups, waiting, offset / FILTER_BASE)
  }

  lemma NothingYet(c: Comparator, p: Progress)
    requires p == Progress([], [], [], [])
    ensures Consistent(c, p) && Awaits(p, false)
  {
  }

  lemma NothingFiltered(p: Progress, groups: seq<seq<Bytes>>, waiting: seq<Bytes>)
    requires p == Progress([], [], [], []) && |groups| == 0
    ensures FilterUpTo(p, groups, waiting, 0)
  {
  }

  // The key may be added next.
  ghost predicate Fits(less: (Bytes, Bytes) -> bool, entries: seq<Pair>, key: Bytes) {
    entries != [] ==> less(entries[|entries| - 1].key, key)
  }

  lemma EntriesKept(c: Comparator, p: Progress, e: Pair)
    requires Ordering(c.less) && Consistent(c, p) && Fits(c.less, p.entries, e.key)
    ensures Ordered(c.less, p.entries + [e]) && BlocksOk(p.entries + [e], p.blocks)
    ensures IndexOk(c, p.entries + [e], p.blocks, p.index)
  {
    var more := p.entries + [e];
    forall i, j | 0 <= i < j < |more|
      ensures InOrder(c.less, more, i, j)
    {
      if j < |p.entries| {
        assert InOrder(c.less, p.entries, i, j);
      } else if i < j - 1 {
        assert InOrder(c.less, p.entries, i, j - 1);
        Mixed(c.less, more[i].key, more[j - 1].key, e.key);
      }
    }
    forall i | 0 <= i < |p.blocks|
      ensures BlockOk(more, p.blocks, i)
    {
      assert BlockOk(p.entries, p.blocks, i);
    }
    forall i | 0 <= i < |p.index|
      ensures IndexAt(c, more, p.blocks, p.index, i)
    {
      assert IndexAt(c, p.entries, p.blocks, p.index, i) && Followed(p, i);
    }
  }

  lemma FollowedStill(p: Progress, p': Progress)
    requires forall i :: 0 <= i < |p.index| ==> Followed(p, i)
    requires |p.entries| <= |p'.entries| && |p'.index| == |p.index| && p.blocks <= p'.blocks
    ensures forall i :: 0 <= i < |p'.index| ==> Followed(p', i)
  {
    forall i | 0 <= i < |p'.index|
      ensures Followed(p', i)
    {
      assert Followed(p, i) && p'.blocks[i] == p.blocks[i];
    }
  }

  // Adding to the current data block.
  lemma Adds(c: Comparator, p: Progress, e: Pair) returns (p': Progress)
    requires Consistent(c, p) && Awaits(p, false)
    requires Ordering(c.less) && Fits(c.less, p.entries, e.key)
    ensures p' == Progress(p.entries + [e], p.blocks, p.index, p.data + [e])
    ensures Consistent(c, p') && Awaits(p', false)
  {
    p' := Progress(p.entries + [e], p.blocks, p.index, p.data + [e]);
    EntriesKept(c, p, e);
    FollowedStill(p, p');
  }

  lemma IndexEntryAdded(c: Comparator, entries: seq<Pair>, bs: seq<DataBlock>, index: seq<Pair>, sep: Pair)
    requires IndexOk(c, entries, bs, index) && |bs| == |index| + 1 && 0 < bs[|bs| - 1].end <= |entries|
    requires sep.key == IndexKey(c, entries, bs[|bs| - 1].end) && sep.value == EncodeHandle(bs[|bs| - 1].handle)
    ensures IndexOk(c, entries, bs, index + [sep])
  {
    forall i | 0 <= i < |index| + 1
      ensures IndexAt(c, entries, bs, index + [sep], i)
    {
      assert i < |index| ==> IndexAt(c, entries, bs, index, i);
    }
  }

  lemma AllWritten(c: Comparator, p: Progress)
    requires Consistent(c, p) && p.data == []
    ensures Start(p.blocks, |p.blocks|) == |p.entries|
    ensures p.blocks != [] ==> 0 < p.blocks[|p.blocks| - 1].end == |p.entries|
  {
    assert p.blocks != [] ==> BlockOk(p.entries, p.blocks, |p.blocks| - 1);
  }

  // Adding the first entry of the next data block, with the index entry of the last one.
  lemma AddsWithIndex(c: Comparator, p: Progress, e: Pair, sep: Pair) returns (p': Progress)
    requires Consistent(c, p) && Awaits(p, true)
    requires Ordering(c.less) && Fits(c.less, p.entries, e.key)
    requires p.entries != [] ==> sep.key == c.findShortestSeparator(p.entries[|p.entries| - 1].key, e.key)
    requires sep.value == EncodeHandle(p.blocks[|p.blocks| - 1].handle)
    ensures p' == Progress(p.entries + [e], p.blocks, p.index + [sep], p.data + [e])
    ensures Consistent(c, p') && Awaits(p', false)
  {
    p' := Progress(p.entries + [e], p.blocks, p.index + [sep], p.data + [e]);
    EntriesKept(c, p, e);
    AllWritten(c, p);
    IndexEntryAdded(c, p'.entries, p.blocks, p.index, sep);
    forall i | 0 <= i < |p'.index|
      ensures Followed(p', i)
    {
      assert i < |p.index| ==> Followed(p, i);
    }
  }

  // Writing out the current data block.
  lemma Flushes(c: Comparator, p: Progress, b: DataBlock) returns (p': Progress)
    requires Consistent(c, p) && Awaits(p, false) && p.data != []
    requires b.end == |p.entries| && b.layout.pairs == p.data && Finished(b.contents, b.layout)
    ensures p' == Progress(p.entries, p.blocks + [b], p.index, [])
    ensures Consistent(c, p') && Awaits(p', true)
  {
    p' := Progress(p.entries, p.blocks + [b], p.index, []);
    forall i | 0 <= i < |p'.blocks|
      ensures BlockOk(p'.entries, p'.blocks, i)
    {
      if i < |p.blocks| {
        assert BlockOk(p.entries, p.blocks, i);
      }
    }
    forall i | 0 <= i < |p'.index|
      ensures IndexAt(c, p'.entries, p'.blocks, p'.index, i)
    {
      assert IndexAt(c, p.entries, p.blocks, p.index, i);
    }
    FollowedStill(p, p');
  }

  // The index entry of the last data block completes the table.
  lemma Completes(c: Comparator, p: Progress, sep: Pair)
    requires Consistent(c, p) && Awaits(p, true)
    requires p.entries != [] ==> sep.key == c.findShortSuccessor(p.entries[|p.entries| - 1].key)
    requires sep.value == EncodeHandle(p.blocks[|p.blocks| - 1].handle)
    ensures Complete(c, p.entries, p.blocks, p.index + [sep])
  {
    AllWritten(c, p);
    IndexEntryAdded(c, p.entries, p.blocks, p.index, sep);
  }

  // After a flush, no index entry is due only if nothing was ever added.
  lemma CompletesEmpty(c: Comparator, p: Progress)
    requires Consistent(c, p) && Awaits(p, false) && p.data == []
    ensures p.entries == [] && Complete(c, p.entries, p.blocks, p.index)
  {
    AllWritten(c, p);
    assert |p.index| > 0 ==> Followed(p, |p.index| - 1);
  }

  lemma StillStored(crc: Checksum, file: Bytes, file': Bytes, h: Handle, contents: Bytes)
    requires Stored(crc, file, h, contents) && file <= file'
    ensures Stored(crc, file', h, contents)
  {
    assert file' == file + file'[|file|..];
    StaysStored(crc, file, h, contents, file'[|file|..]);
  }

  lemma BlocksStayStored(crc: Checksum, file: Bytes, file': Bytes, bs: seq<DataBlock>)
    requires BlocksStored(crc, file, bs) && file <= file'
    ensures BlocksStored(crc, file', bs)
  {
    forall i | 0 <= i < |bs|
      ensures BlockStored(crc, file', bs, i)
    {
      assert BlockStored(crc, file, bs, i);
      StillStored(crc, file, file', bs[i].handle, bs[i].contents);
    }
  }

  lemma OneMoreStored(crc: Checksum, file: Bytes, bs: seq<DataBlock>, b: DataBlock)
    requires BlocksStored(crc, file, bs) && Stored(crc, file, b.handle, b.contents)
    ensures BlocksStored(crc, file, bs + [b])
  {
    forall i | 0 <= i < |bs| + 1
      ensures BlockStored(crc, file, bs + [b], i)
    {
      assert i < |bs| ==> BlockStored(crc, file, bs, i);
    }
  }

  lemma FilterAdds(c: Comparator, p: Progress, p': Progress, e: Pair, groups: seq<seq<Bytes>>, waiting: seq<Bytes>, offset: nat)
    requires Consistent(c, p) && FilterUpTo(p, groups, waiting, offset)
    requires p'.entries == p.entries + [e] && p'.blocks == p.blocks && p'.data == p.data + [e]
    ensures FilterUpTo(p', groups, waiting + [e.key], offset)
  {
    forall i | 0 <= i < |p.blocks|
      ensures BlockFiltered(p'.entries, p'.blocks, groups, waiting + [e.key], i)
    {
      assert BlockFiltered(p.entries, p.blocks, groups, waiting, i);
      assert BlockOk(p.entries, p.blocks, i);
    }
  }

  lemma FilterKept(entries: seq<Pair>, bs: seq<DataBlock>, groups: seq<seq<Bytes>>, waiting: seq<Bytes>,
      groups': seq<seq<Bytes>>, waiting': seq<Bytes>)
    requires FilterOk(entries, bs, groups, waiting) && SameKeys(groups, waiting, groups', waiting')
    ensures FilterOk(entries, bs, groups', waiting')
  {
    forall i | 0 <= i < |bs|
      ensures BlockFiltered(entries, bs, groups', waiting', i)
    {
      assert BlockFiltered(entries, bs, groups, waiting, i);
    }
  }

  lemma FilterFlushes(c: Comparator, p: Progress, p': Progress, b: DataBlock, groups: seq<seq<Bytes>>, waiting: seq<Bytes>, offset: nat)
    requires Consistent(c, p) && FilterUpTo(p, groups, waiting, offset) && b.handle.offset == offset && b.end == |p.entries|
    requires p'.entries == p.entries && p'.blocks == p.blocks + [b] && p'.data == []
    ensures FilterOk(p'.entries, p'.blocks, groups, waiting)
  {
    forall i | 0 <= i < |p'.blocks|
      ensures BlockFiltered(p'.entries, p'.blocks, groups, waiting, i)
    {
      if i < |p.blocks| {
        assert BlockFiltered(p.entries, p.blocks, groups, waiting, i);
      } else {
        forall q | Start(p'.blocks, i) <= q < |p.entries|
          ensures p.entries[q].key in KeysAt(groups, waiting, offset / FILTER_BASE)
        {
          assert p.entries[q] == p.data[q - Start(p'.blocks, i)];
        }
      }
    }
  }

  lemma BodyInPlace(o: Options, file: Bytes, withMeta: Bytes, whole: Bytes, t: TableFile)
    requires file <= withMeta <= whole && BlocksStored(o.crc, file, t.blocks)
    requires IsStored(o.crc, withMeta, t.meta) && IsStored(o.crc, whole, t.index)
    requires o.policy.Some? ==> |o.policy.value.name| < 0x8000_0000 && FilterStored(o, file, t)
    requires t.meta.layout.pairs == MetaPairs(o.policy, t.filterHandle)
    requires Complete(o.comparator, t.entries, t.blocks, t.index.layout.pairs)
    ensures IsBody(o, whole, t)
  {
    BlocksStayStored(o.crc, file, whole, t.blocks);
    StillStored(o.crc, withMeta, whole, t.meta.handle, t.meta.contents);
    if o.policy.Some? {
      StillStored(o.crc, file, whole, t.filterHandle, Contents(o.policy.value.policy, t.groups));
    }
  }

  lemma FooterCompletes(o: Options, file: Bytes, t: TableFile)
    requires IsBody(o, file, t)
    ensures IsTable(o, file + EncodeFooter(t.meta.handle, t.index.handle), t)
  {
    var footer := EncodeFooter(t.meta.handle, t.index.handle);
    var whole := file + footer;
    BlocksStayStored(o.crc, file, whole, t.blocks);
    StillStored(o.crc, file, whole, t.index.handle, t.index.contents);
    StillStored(o.crc, file, whole, t.meta.handle, t.meta.contents);
    if o.policy.Some? {
      StillStored(o.crc, file, whole, t.filterHandle, Contents(o.policy.value.policy, t.groups));
    }
    assert whole[|whole| - FOOTER_LENGTH..] == footer;
  }
}
