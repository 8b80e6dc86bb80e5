/** Building a table file (table/table_builder.cc): data blocks, filter, metaindex, index and
  footer, appended to a file. */
module TableBuilding {
  import opened Wrappers
  import opened Keys
  import opened Coding
  import opened Comparators
  import opened BlockFormat
  import opened Block
  import opened TableFormat
  import opened FilterBlock
  import opened TableLayout
  import opened TableStates

  const FILE_LIMIT := 0x4000_0000_0000_0000

  class TableBuilder {
    const options: Options
    // Which keys a lookup takes for the same.
    ghost const same: (Bytes, Bytes) -> bool
    const dataBlock: BlockBuilder
    const indexBlock: BlockBuilder
    const filterBlock: FilterBlockBuilder?
    var file: Bytes
    var offset: nat
    var lastKey: Slice
    var numEntries: nat
    var closed: bool
    var pendingIndexEntry: bool
    var pendingHandle: Handle
    // Everything added, and the data blocks written.
    ghost var entries: seq<Pair>
    ghost var blocks: seq<DataBlock>

    ghost function Now(): Progress
      reads this`entries, this`blocks, dataBlock`layout, indexBlock`layout
    {
      Progress(entries, blocks, indexBlock.layout.pairs, dataBlock.layout.pairs)
    }

    ghost predicate Basics()
      reads this, dataBlock, indexBlock, filterBlock
    {
      && dataBlock != indexBlock && (filterBlock != null <==> options.policy.Some?)
      && dataBlock.Valid() && indexBlock.Valid() && (filterBlock != null ==> filterBlock.Valid())
      && (filterBlock != null ==> filterBlock.policy == options.policy.value.policy)
      && offset == |file| && BlocksStored(options.crc, file, blocks)
      && (entries != [] ==> lastKey == entries[|entries| - 1].key)
      && |entries| == numEntries && options.restartInterval >= 1
    }

    ghost predicate Valid()
      reads this, dataBlock, indexBlock, filterBlock
    {
      && Basics() && !closed && Lawful(options.comparator, same)
      && Consistent(options.comparator, Now()) && Awaits(Now(), pendingIndexEntry)
      && (pendingIndexEntry ==> blocks != [] && pendingHandle == blocks[|blocks| - 1].handle)
      && (filterBlock != null ==> FilterUpTo(Now(), filterBlock.groups, filterBlock.waiting, offset))
    }

    constructor (options: Options, ghost same: (Bytes, Bytes) -> bool)
      requires options.restartInterval >= 1 && Lawful(options.comparator, same)
      ensures Valid() && entries == [] && file == [] && this.options == options && this.same == same
      ensures dataBlock.CurrentSizeEstimate() == 8 && indexBlock.CurrentSizeEstimate() == 8
      ensures lastKey == [] && offset == 0
      ensures filterBlock != null ==> filterBlock.FilterData() == []
      ensures fresh(dataBlock) && fresh(indexBlock) && (filterBlock != null ==> fresh(filterBlock))
    {
      this.options, this.same := options, same;
      dataBlock := new BlockBuilder(options.restartInterval);
      indexBlock := new BlockBuilder(1);
      if options.policy.None? {
        filterBlock := null;
      } else {
        filterBlock := new FilterBlockBuilder(options.policy.value.policy);
      }
      file, offset, lastKey, numEntries, closed := [], 0, [], 0, false;
      pendingIndexEntry, pendingHandle := false, Handle(0, 0);
      entries, blocks := [], [];
      new;
      NothingYet(options.comparator, Now());
      if filterBlock != null {
        filterBlock.StartBlock(0);
        NothingFiltered(Now(), filterBlock.groups, filterBlock.waiting);
      }
    }

    // Block sizes and offsets in blocks are 32 bits wide, file offsets 64 bits.
    ghost predicate Room(size: nat)
      reads this, dataBlock, indexBlock
    {
      && dataBlock.CurrentSizeEstimate() + size + 19 < 0x1_0000_0000
      && indexBlock.CurrentSizeEstimate() + |lastKey| + 39 < 0x1_0000_0000
      && offset < FILE_LIMIT
    }

    // The key for the last data block goes into the index now that the next one is known.
    method AddIndexEntry(key: Slice) returns (ghost sep: Pair)
      requires Valid() && pendingIndexEntry && Room(0)
      requires Fits(options.comparator.less, entries, key)
      modifies this`pendingIndexEntry, indexBlock
      ensures Basics() && !pendingIndexEntry
      ensures entries != [] ==> sep.key == options.comparator.findShortestSeparator(entries[|entries| - 1].key, key)
      ensures sep.value == EncodeHandle(blocks[|blocks| - 1].handle)
      ensures indexBlock.layout.pairs == old(indexBlock.layout.pairs) + [sep]
      ensures indexBlock.CurrentSizeEstimate() <= old(indexBlock.CurrentSizeEstimate() + |lastKey|) + 39
    {
      LastBlockEnds();
      assert Separates(options.comparator, lastKey, key);
      var separator := options.comparator.findShortestSeparator(lastKey, key);
      HandleSize(pendingHandle);
      indexBlock.Add(separator, EncodeHandle(pendingHandle));
      pendingIndexEntry := false;
      sep := Pair(separator, EncodeHandle(pendingHandle));
    }

    lemma LastBlockEnds()
      requires Valid() && pendingIndexEntry
      ensures blocks != [] && entries != []
    {
      assert BlockOk(entries, blocks, |blocks| - 1);
    }

    // The filter, the counters and the data block.
    method Append(key: Slice, value: Slice)
      requires Basics() && dataBlock.CurrentSizeEstimate() + |key| + |value| + 19 < 0x1_0000_0000
      modifies this`lastKey, this`numEntries, this`entries, dataBlock, filterBlock
      ensures Basics() && entries == old(entries) + [Pair(key, value)]
      ensures dataBlock.layout.pairs == old(dataBlock.layout.pairs) + [Pair(key, value)]
      ensures dataBlock.CurrentSizeEstimate() <= old(dataBlock.CurrentSizeEstimate()) + |key| + |value| + 19
      ensures filterBlock != null ==> filterBlock.groups == old(filterBlock.groups)
      ensures filterBlock != null ==>
                filterBlock.waiting == old(filterBlock.waiting) + [key] && filterBlock.result == old(filterBlock.result)
    {
      if filterBlock != null {
        filterBlock.AddKey(key);
      }
      lastKey := key;
      numEntries := numEntries + 1;
      dataBlock.Add(key, value);
      entries := entries + [Pair(key, value)];
    }

    // How large the two blocks under construction may be, the index with its next key.
    function Sizes(): (nat, nat)
      reads this`lastKey, dataBlock, indexBlock
    {
      (dataBlock.CurrentSizeEstimate(), indexBlock.CurrentSizeEstimate() + |lastKey|)
    }

    predicate Grown(key: Slice, value: Slice, before: (nat, nat))
      reads this`lastKey, dataBlock, indexBlock
    {
      Sizes().0 <= before.0 + |key| + |value| + 19 && Sizes().1 <= before.1 + 39 + |key|
    }

    // The index entry, if one is due; `p` is where the addition is about to lead.
    method SettleIndex(key: Slice, ghost e: Pair) returns (ghost p: Progress)
      requires Valid() && Room(0) && e.key == key
      requires Fits(options.comparator.less, entries, key)
      modifies this`pendingIndexEntry, indexBlock
      ensures Basics() && !pendingIndexEntry
      ensures p == Progress(entries + [e], blocks, indexBlock.layout.pairs, dataBlock.layout.pairs + [e])
      ensures Consistent(options.comparator, p) && Awaits(p, false)
      ensures filterBlock != null ==> FilterUpTo(p, filterBlock.groups, filterBlock.waiting + [key], offset)
      ensures indexBlock.CurrentSizeEstimate() <= old(indexBlock.CurrentSizeEstimate() + |lastKey|) + 39
    {
      ghost var before := Now();
      if pendingIndexEntry {
        ghost var sep := AddIndexEntry(key);
        p := AddsWithIndex(options.comparator, before, e, sep);
      } else {
        p := Adds(options.comparator, before, e);
      }
      if filterBlock != null {
        FilterAdds(options.comparator, before, p, e, filterBlock.groups, filterBlock.waiting, offset);
      }
    }

    // Everything in Add but the decision to flush.
    method AddEntry(key: Slice, value: Slice)
      requires Valid() && Room(|key| + |value|)
      requires Fits(options.comparator.less, entries, key)
      modifies this, dataBlock, indexBlock, filterBlock
      ensures Valid() && !pendingIndexEntry && file == old(file) && entries == old(entries) + [Pair(key, value)]
      ensures offset == old(offset) && Grown(key, value, old(Sizes())) && blocks == old(blocks) && dataBlock.layout.pairs != []
      ensures filterBlock != null ==>
                filterBlock.waiting == old(filterBlock.waiting) + [key] && filterBlock.result == old(filterBlock.result)
    {
      ghost var p := SettleIndex(key, Pair(key, value));
      Append(key, value);
      assert Now() == p;
    }

    // One more data block was written, of this size.
    ghost predicate OneBlockMore(before: seq<DataBlock>, size: nat)
      reads this`blocks
    {
      |blocks| == |before| + 1 && before <= blocks && |blocks[|before|].contents| == size
    }

    // The data block goes to the file as soon as it has reached the block size.
    method Add(key: Slice, value: Slice)
      requires Valid() && Room(|key| + |value|)
      requires Fits(options.comparator.less, entries, key)
      modifies this, dataBlock, indexBlock, filterBlock
      ensures Valid() && entries == old(entries) + [Pair(key, value)] && old(file) <= file
      ensures Grown(key, value, old(Sizes())) && offset <= old(offset) + 0x1_0000_0005
      ensures blocks == old(blocks) ==> dataBlock.CurrentSizeEstimate() < options.blockSize
      ensures blocks != old(blocks) ==> exists size :: size >= options.blockSize && OneBlockMore(old(blocks), size)
      ensures filterBlock != null ==>
                filterBlock.FilterData() == old(filterBlock.result) + FilterOf(filterBlock.policy, old(filterBlock.waiting) + [key])
    {
      AddEntry(key, value);
      var estimatedBlockSize := dataBlock.CurrentSizeEstimate();
      if estimatedBlockSize >= options.blockSize {
        Flush();
      }
    }

    method WriteRawBlock(contents: Bytes) returns (handle: Handle)
      requires offset == |file| && offset < TWO64 && |contents| < TWO64
      modifies this`file, this`offset
      ensures handle == Handle(old(offset), |contents|) && offset == |file|
      ensures file == old(file) + (contents + Trailer(options.crc, contents))
      ensures Stored(options.crc, file, handle, contents)
    {
      handle := Handle(offset, |contents|);
      WritesStored(options.crc, file, contents, handle);
      assert file + (contents + Trailer(options.crc, contents)) == file + contents + Trailer(options.crc, contents);
      file := file + contents;
      file := file + Trailer(options.crc, contents);
      offset := offset + |contents| + BLOCK_TRAILER_SIZE;
    }

    // Finish the block, write it, and make its builder ready for the next one.
    method WriteBlock(block: BlockBuilder) returns (handle: Handle, ghost contents: Bytes)
      requires block.Valid() && block.CurrentSizeEstimate() < 0x1_0000_0000
      requires offset == |file| && offset < TWO64
      modifies this`file, this`offset, block
      ensures block.Valid() && block.layout.pairs == [] && block.CurrentSizeEstimate() == 8
      ensures Finished(contents, old(block.layout)) && |contents| == old(block.CurrentSizeEstimate()) < 0x1_0000_0000
      ensures handle == Handle(old(offset), |contents|) && offset == |file|
      ensures file == old(file) + (contents + Trailer(options.crc, contents))
      ensures Stored(options.crc, file, handle, contents)
    {
      var raw := block.Finish();
      contents := raw;
      handle := WriteRawBlock(raw);
      block.Reset();
    }

    // The current data block goes to the file.
    method WriteData() returns (ghost b: DataBlock)
      requires Basics() && offset < FILE_LIMIT && dataBlock.CurrentSizeEstimate() < 0x1_0000_0000
      modifies this`file, this`offset, this`pendingHandle, dataBlock
      ensures Basics() && dataBlock.layout.pairs == [] && old(file) <= file && offset <= old(offset) + 0x1_0000_0005
      ensures dataBlock.CurrentSizeEstimate() == 8
      ensures b.handle == pendingHandle && b.handle.offset == old(offset) && b.layout == old(dataBlock.layout)
      ensures b.end == |entries| && Finished(b.contents, b.layout) && |b.contents| == old(dataBlock.CurrentSizeEstimate())
      ensures Stored(options.crc, file, b.handle, b.contents)
    {
      ghost var layout, before := dataBlock.layout, file;
      ghost var contents;
      pendingHandle, contents := WriteBlock(dataBlock);
      BlocksStayStored(options.crc, before, file, blocks);
      b := DataBlock(pendingHandle, contents, layout, |entries|);
    }

    // The filter follows the file.
    method StartFilter(ghost p: Progress, ghost at: nat)
      requires filterBlock != null && filterBlock.Valid() && |filterBlock.groups| == at / FILTER_BASE && at <= offset
      requires FilterOk(p.entries, p.blocks, filterBlock.groups, filterBlock.waiting) && p.data == []
      modifies filterBlock
      ensures filterBlock.Valid() && FilterUpTo(p, filterBlock.groups, filterBlock.waiting, offset)
      ensures filterBlock.FilterData() == old(filterBlock.FilterData())
    {
      ghost var groups, waiting := filterBlock.groups, filterBlock.waiting;
      filterBlock.StartBlock(offset);
      FilterKept(p.entries, p.blocks, groups, waiting, filterBlock.groups, filterBlock.waiting);
    }

    method Flush()
      requires Valid() && offset < FILE_LIMIT && dataBlock.CurrentSizeEstimate() < 0x1_0000_0000
      modifies this, dataBlock, filterBlock
      ensures Valid() && dataBlock.layout.pairs == [] && entries == old(entries) && old(file) <= file
      ensures pendingIndexEntry == (old(pendingIndexEntry) || old(dataBlock.layout.pairs) != [])
      ensures dataBlock.CurrentSizeEstimate() <= old(dataBlock.CurrentSizeEstimate())
      ensures lastKey == old(lastKey) && offset <= old(offset) + 0x1_0000_0005
      ensures old(dataBlock.layout.pairs) != [] ==> OneBlockMore(old(blocks), old(dataBlock.CurrentSizeEstimate()))
      ensures filterBlock != null ==> filterBlock.FilterData() == old(filterBlock.FilterData())
    {
      dataBlock.EmptyMeans();
      if dataBlock.Empty() {
        return;
      }
      FlushData();
    }

    method FlushData()
      requires Valid() && offset < FILE_LIMIT && dataBlock.CurrentSizeEstimate() < 0x1_0000_0000
      requires dataBlock.layout.pairs != []
      modifies this, dataBlock, filterBlock
      ensures Valid() && dataBlock.layout.pairs == [] && entries == old(entries) && old(file) <= file
      ensures pendingIndexEntry && lastKey == old(lastKey) && offset <= old(offset) + 0x1_0000_0005
      ensures dataBlock.CurrentSizeEstimate() == 8 && OneBlockMore(old(blocks), old(dataBlock.CurrentSizeEstimate()))
      ensures filterBlock != null ==> filterBlock.FilterData() == old(filterBlock.FilterData())
    {
      ghost var p, at := Now(), offset;
      ghost var b := WriteData();
      ghost var p' := Flushes(options.comparator, p, b);
      OneMoreStored(options.crc, file, blocks, b);
      pendingIndexEntry := true;
      blocks := blocks + [b];
      if filterBlock != null {
        FilterFlushes(options.comparator, p, p', b, filterBlock.groups, filterBlock.waiting, at);
        StartFilter(p', at);
      }
      assert Now() == p';
    }

    ghost predicate FilterReady()
      reads this`entries, this`blocks, this`offset, dataBlock`layout, indexBlock`layout, filterBlock
    {
      filterBlock != null ==>
        && filterBlock.Valid() && options.policy.Some? && filterBlock.policy == options.policy.value.policy
        && FilterUpTo(Now(), filterBlock.groups, filterBlock.waiting, offset)
        && |filterBlock.FilterData()| < 0x1_0000_0000
    }

    // The filter block, and what a lookup needs to know of it.
    ghost predicate FilterWritten(handle: Handle, groups: seq<seq<Bytes>>)
      reads this`entries, this`blocks, this`file
    {
      options.policy.Some? ==>
        && FilterOk(entries, blocks, groups, [])
        && |Filters(options.policy.value.policy, groups, |groups|)| < 0x1_0000_0000
        && Stored(options.crc, file, handle, Contents(options.policy.value.policy, groups))
    }

    method WriteFilter() returns (handle: Handle, ghost groups: seq<seq<Bytes>>)
      requires FilterReady() && (options.policy.Some? ==> filterBlock != null) && offset == |file| < 2 * FILE_LIMIT
      requires BlocksStored(options.crc, file, blocks)
      modifies this`file, this`offset, filterBlock
      ensures old(file) <= file && offset == |file| < 3 * FILE_LIMIT
      ensures FilterWritten(handle, groups) && BlocksStored(options.crc, file, blocks)
    {
      handle, groups := Handle(0, 0), [];
      if filterBlock != null {
        ghost var before, waiting, body := filterBlock.groups, filterBlock.waiting, file;
        var contents := filterBlock.Finish();
        groups := filterBlock.groups;
        FilterKept(entries, blocks, before, waiting, groups, []);
        PackedSize(Filters(filterBlock.policy, groups, |groups|), Offsets(filterBlock.policy, groups, |groups|));
        handle := WriteRawBlock(contents);
        BlocksStayStored(options.crc, body, file, blocks);
      }
    }

    method WriteMeta(filterHandle: Handle) returns (handle: Handle, ghost b: StoredBlock)
      requires offset == |file| < 3 * FILE_LIMIT && options.restartInterval >= 1
      requires options.policy.Some? ==> |options.policy.value.name| < 0x8000_0000
      modifies this`file, this`offset
      ensures old(file) <= file && offset == |file| <= old(offset) + 0x1_0000_0005
      ensures IsStored(options.crc, file, b) && b.handle == handle
      ensures b.layout.pairs == MetaPairs(options.policy, filterHandle)
    {
      var metaIndexBlock := new BlockBuilder(options.restartInterval);
      if options.policy.Some? {
        HandleSize(filterHandle);
        metaIndexBlock.Add(FILTER_PREFIX + options.policy.value.name, EncodeHandle(filterHandle));
      }
      ghost var layout := metaIndexBlock.layout;
      ghost var contents;
      handle, contents := WriteBlock(metaIndexBlock);
      b := StoredBlock(handle, contents, layout);
    }

    // All data is written, and the index lacks at most the entry of the last block.
    ghost predicate DataWritten()
      reads this`entries, this`blocks, this`lastKey, this`pendingIndexEntry, this`pendingHandle, dataBlock`layout, indexBlock
    {
      && indexBlock.Valid() && indexBlock.CurrentSizeEstimate() + |lastKey| + 39 < 0x1_0000_0000
      && Lawful(options.comparator, same) && Consistent(options.comparator, Now()) && Now().data == []
      && Awaits(Now(), pendingIndexEntry)
      && (entries != [] ==> lastKey == entries[|entries| - 1].key)
      && (pendingIndexEntry ==> blocks != [] && pendingHandle == blocks[|blocks| - 1].handle)
    }

    // The index entry of the last data block, if there is one.
    method CompleteIndex()
      requires DataWritten()
      modifies this`pendingIndexEntry, indexBlock
      ensures indexBlock.Valid() && indexBlock.CurrentSizeEstimate() < 0x1_0000_0000
      ensures Complete(options.comparator, entries, blocks, indexBlock.layout.pairs)
    {
      if pendingIndexEntry {
        assert BlockOk(entries, blocks, |blocks| - 1);
        assert Succeeds(options.comparator, lastKey);
        var successor := options.comparator.findShortSuccessor(lastKey);
        HandleSize(pendingHandle);
        Completes(options.comparator, Now(), Pair(successor, EncodeHandle(pendingHandle)));
        indexBlock.Add(successor, EncodeHandle(pendingHandle));
        pendingIndexEntry := false;
      } else {
        CompletesEmpty(options.comparator, Now());
      }
    }

    method WriteIndex() returns (handle: Handle, ghost b: StoredBlock)
      requires DataWritten() && offset == |file| < TWO64
      modifies this`file, this`offset, this`pendingIndexEntry, indexBlock
      ensures old(file) <= file && offset == |file|
      ensures IsStored(options.crc, file, b) && b.handle == handle
      ensures Complete(options.comparator, entries, blocks, b.layout.pairs)
    {
      CompleteIndex();
      ghost var layout := indexBlock.layout;
      ghost var contents;
      handle, contents := WriteBlock(indexBlock);
      b := StoredBlock(handle, contents, layout);
    }

    // The metaindex, the index and the footer; the filter is in place.
    method WriteRest(filterHandle: Handle, ghost groups: seq<seq<Bytes>>) returns (ghost t: TableFile)
      requires DataWritten() && BlocksStored(options.crc, file, blocks)
      requires offset == |file| < 3 * FILE_LIMIT && options.restartInterval >= 1
      requires options.policy.Some? ==> |options.policy.value.name| < 0x8000_0000
      requires FilterWritten(filterHandle, groups)
      modifies this`file, this`offset, this`pendingIndexEntry, indexBlock
      ensures IsTable(options, file, t) && t.entries == entries && old(file) <= file && offset == |file|
    {
      ghost var body := file;
      var metaindexHandle, indexHandle;
      ghost var meta, index;
      metaindexHandle, meta := WriteMeta(filterHandle);
      ghost var withMeta := file;
      indexHandle, index := WriteIndex();
      t := TableFile(entries, blocks, index, meta, filterHandle, groups);
      BodyInPlace(options, body, withMeta, file, t);
      WriteFooter(metaindexHandle, indexHandle, t);
    }

    method WriteFooter(metaindexHandle: Handle, indexHandle: Handle, ghost t: TableFile)
      requires IsBody(options, file, t) && t.meta.handle == metaindexHandle && t.index.handle == indexHandle
      requires offset == |file|
      modifies this`file, this`offset
      ensures IsTable(options, file, t) && old(file) <= file && offset == |file|
    {
      FooterCompletes(options, file, t);
      file := file + EncodeFooter(metaindexHandle, indexHandle);
      offset := offset + FOOTER_LENGTH;
    }

    method Finish() returns (ghost t: TableFile)
      requires Valid() && Room(0)
      requires options.policy.Some? ==> |options.policy.value.name| < 0x8000_0000
      requires filterBlock != null ==> |filterBlock.FilterData()| < 0x1_0000_0000
      modifies this, dataBlock, indexBlock, filterBlock
      ensures closed && IsTable(options, file, t) && t.entries == old(entries)
    {
      FinishData();
      var filterBlockHandle;
      ghost var groups;
      filterBlockHandle, groups := WriteFilter();
      t := WriteRest(filterBlockHandle, groups);
    }

    method FinishData()
      requires Valid() && Room(0) && (filterBlock != null ==> |filterBlock.FilterData()| < 0x1_0000_0000)
      modifies this, dataBlock, filterBlock
      ensures closed && entries == old(entries) && old(file) <= file && offset == |file| < 2 * FILE_LIMIT
      ensures DataWritten() && FilterReady() && BlocksStored(options.crc, file, blocks)
    {
      Flush();
      closed := true;
    }
  }
}
