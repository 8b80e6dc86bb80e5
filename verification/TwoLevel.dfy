/** TwoLevelIterator (table/two_level_iterator.cc): an index iterator whose values name
  blocks, and an iterator over the current block. Together they are one cursor over the
  concatenation of the blocks, empty blocks included. */
module TwoLevel {
  import opened Keys
  import opened Iterators

  // The entries of the first `n` blocks. `blockOf` opens the block an index value names.
  function FlatFirst(index: seq<Entry>, blockOf: Bytes -> seq<Entry>, n: nat): seq<Entry>
    requires n <= |index|
  {
    if n == 0 then [] else FlatFirst(index, blockOf, n - 1) + blockOf(index[n - 1].value)
  }

  function Flat(index: seq<Entry>, blockOf: Bytes -> seq<Entry>): seq<Entry> {
    FlatFirst(index, blockOf, |index|)
  }

  lemma {:induction false} FlatGrows(index: seq<Entry>, blockOf: Bytes -> seq<Entry>, n: nat, m: nat)
    requires n <= m <= |index|
    ensures FlatFirst(index, blockOf, n) <= FlatFirst(index, blockOf, m)
  {
    if n < m {
      FlatGrows(index, blockOf, n, m - 1);
    }
  }

  // Entry `p` of block `n` is entry `|FlatFirst(n)| + p` of the concatenation.
  lemma FlatAt(index: seq<Entry>, blockOf: Bytes -> seq<Entry>, n: nat, p: nat)
    requires n < |index| && p < |blockOf(index[n].value)|
    ensures |FlatFirst(index, blockOf, n)| + p < |Flat(index, blockOf)|
    ensures Flat(index, blockOf)[|FlatFirst(index, blockOf, n)| + p] == blockOf(index[n].value)[p]
  {
    FlatGrows(index, blockOf, n + 1, |index|);
  }

  // An index key separates its block from all later ones.
  ghost predicate IndexSeparates(index: seq<Entry>, blockOf: Bytes -> seq<Entry>) {
    && Ascending(index)
    && Ascending(Flat(index, blockOf))
    && (forall n, x :: 0 <= n < |index| && x in FlatFirst(index, blockOf, n + 1) ==> !Less(index[n].ikey, x.ikey))
    && (forall n, y :: 0 <= n < |index| && |FlatFirst(index, blockOf, n + 1)| <= y < |Flat(index, blockOf)| ==>
          Less(index[n].ikey, Flat(index, blockOf)[y].ikey))
  }

  class TwoLevelIterator {
    const index: EntryIterator
    const blockOf: Bytes -> seq<Entry>
    var data: EntryIterator?
    var dataBlockHandle: Bytes

    constructor (index: EntryIterator, blockOf: Bytes -> seq<Entry>)
      ensures Ok() && !Valid() && data == null && this.index == index && this.blockOf == blockOf
    {
      this.index, this.blockOf, data, dataBlockHandle := index, blockOf, null, [];
    }

    ghost function All(): seq<Entry> {
      Flat(index.entries, blockOf)
    }

    // The handle belongs to the open block.
    ghost predicate Open()
      reads this
    {
      data != null ==> data != index && data.entries == blockOf(dataBlockHandle)
    }

    ghost predicate AtBlock()
      reads this, index
    {
      data != null && index.Valid() && data != index && data.entries == blockOf(index.Current().value)
    }

    ghost predicate Ok()
      reads this, index, data
    {
      Open() && (data != null ==> AtBlock() && data.Valid())
    }

    predicate Valid()
      reads this, data
    {
      data != null && data.Valid()
    }

    // The cursor position in the concatenation; its length when not valid.
    ghost function At(): nat
      requires Ok()
      reads this, index, data
    {
      if data == null then |All()| else |FlatFirst(index.entries, blockOf, index.pos)| + data.pos
    }

    function Current(): (e: Entry)
      requires Ok() && Valid()
      reads this, index, data
    {
      data.Current()
    }

    lemma CurrentIsAt()
      requires Ok() && Valid()
      ensures At() < |All()| && All()[At()] == Current()
    {
      FlatAt(index.entries, blockOf, index.pos, data.pos);
    }

    method SeekToFirst()
      requires Ok()
      modifies this, index, data
      ensures Ok() && At() == 0 && (data == null || data == old(data) || fresh(data))
      ensures Valid() <==> All() != []
    {
      index.SeekToFirst();
      InitDataBlock();
      if data != null {
        data.SeekToFirst();
      }
      SkipEmptyDataBlocksForward(0);
      if Valid() {
        CurrentIsAt();
      }
    }

    method SeekToLast()
      requires Ok()
      modifies this, index, data
      ensures Ok() && (data == null || data == old(data) || fresh(data))
      ensures if All() == [] then !Valid() else Valid() && At() == |All()| - 1
    {
      index.SeekToLast();
      InitDataBlock();
      if data != null {
        data.SeekToLast();
      }
      SkipEmptyDataBlocksBackward(|All()|);
    }

    method Seek(target: InternalKey)
      requires Ok() && IndexSeparates(index.entries, blockOf)
      modifies this, index, data
      ensures Ok() && (data == null || data == old(data) || fresh(data))
      ensures At() == LowerBound(All(), target)
      ensures Valid() <==> At() < |All()|
    {
      index.Seek(target);
      ghost var n := index.pos;
      InitDataBlock();
      if data != null {
        data.Seek(target);
        SeekInBlock(index.entries, blockOf, n, target);
      } else {
        SeekPastAll(index.entries, blockOf, target);
      }
      SkipEmptyDataBlocksForward(LowerBound(All(), target));
      if Valid() {
        CurrentIsAt();
      }
    }

    method Next()
      requires Ok() && Valid()
      modifies this, index, data
      ensures Ok() && (data == null || data == old(data) || fresh(data))
      ensures At() == old(At()) + 1 && (Valid() <==> At() < |All()|)
    {
      ghost var at := At();
      CurrentIsAt();
      data.Next();
      SkipEmptyDataBlocksForward(at + 1);
      if Valid() {
        CurrentIsAt();
      }
    }

    method Prev()
      requires Ok() && Valid()
      modifies this, index, data
      ensures Ok() && (data == null || data == old(data) || fresh(data))
      ensures if old(At()) == 0 then !Valid() else Valid() && At() == old(At()) - 1
    {
      ghost var at := At();
      CurrentIsAt();
      data.Prev();
      SkipEmptyDataBlocksBackward(at);
    }

    // Where a forward move stands before empty blocks are skipped: `c` is the position of
    // the data iterator, which may be past the end of its block.
    ghost predicate ForwardPoint(c: nat)
      reads this, index, data
    {
      && Open() && c <= |All()|
      && index.pos <= |index.entries|
      && (data != null ==> AtBlock() && c == |FlatFirst(index.entries, blockOf, index.pos)| + data.pos
                           && data.pos <= |data.entries|)
      && (data == null ==> !index.Valid() && c == |All()|)
    }

    method SkipEmptyDataBlocksForward(ghost c: nat)
      requires ForwardPoint(c)
      modifies this, index, data
      ensures Ok() && At() == c && (data == null || data == old(data) || fresh(data))
      ensures Valid() <==> data != null
    {
      while data == null || !data.Valid()
        invariant ForwardPoint(c)
        invariant data == null || data == old(data) || fresh(data)
        decreases |index.entries| - index.pos
      {
        if !index.Valid() {
          data := null;
          return;
        }
        index.Next();
        InitDataBlock();
        if data != null {
          data.SeekToFirst();
        }
      }
    }

    // Where a backward move stands: everything from `c` on is passed.
    ghost predicate BackwardPoint(c: nat)
      reads this, index, data
    {
      && Open() && c <= |All()|
      && index.pos <= |index.entries|
      && (data != null ==> AtBlock() && data.pos <= |data.entries|
                           && c == |FlatFirst(index.entries, blockOf, index.pos)|
                                   + (if data.Valid() then data.pos + 1 else 0))
      && (data == null ==> !index.Valid() && c == 0)
    }

    method SkipEmptyDataBlocksBackward(ghost c: nat)
      requires BackwardPoint(c)
      modifies this, index, data
      ensures Ok() && (data == null || data == old(data) || fresh(data))
      ensures if c == 0 then !Valid() else Valid() && At() == c - 1
    {
      while data == null || !data.Valid()
        invariant BackwardPoint(c)
        invariant data == null || data == old(data) || fresh(data)
        decreases if index.Valid() then index.pos + 1 else 0
      {
        if !index.Valid() {
          data := null;
          return;
        }
        index.Prev();
        InitDataBlock();
        if data != null {
          data.SeekToLast();
        }
      }
    }

    // InitDataBlock: reopen the block unless it is the one already open.
    method InitDataBlock()
      requires Open()
      modifies this
      ensures Open()
      ensures !index.Valid() ==> data == null
      ensures index.Valid() ==> AtBlock() && (data == old(data) || fresh(data))
    {
      if !index.Valid() {
        data := null;
      } else {
        var handle := index.Current().value;
        if data != null && handle == dataBlockHandle {
          // data is already constructed with this handle
        } else {
          data := new EntryIterator(blockOf(handle));
          dataBlockHandle := handle;
        }
      }
    }
  }

  lemma SeekInBlock(index: seq<Entry>, blockOf: Bytes -> seq<Entry>, n: nat, target: InternalKey)
    requires IndexSeparates(index, blockOf) && n == LowerBound(index, target) && n < |index|
    ensures LowerBound(Flat(index, blockOf), target)
            == |FlatFirst(index, blockOf, n)| + LowerBound(blockOf(index[n].value), target)
  {
    var flat, block := Flat(index, blockOf), blockOf(index[n].value);
    var start, p := |FlatFirst(index, blockOf, n)|, LowerBound(block, target);
    FlatGrows(index, blockOf, n, |index|);
    FlatGrows(index, blockOf, n + 1, |index|);
    forall y | 0 <= y < start + p
      ensures Less(flat[y].ikey, target)
    {
      if y < start {
        assert flat[y] == FlatFirst(index, blockOf, n)[y];
        assert Less(index[n - 1].ikey, target);
        assert flat[y] in FlatFirst(index, blockOf, n - 1 + 1);
      } else {
        assert flat[y] == block[y - start];
      }
    }
    if start + p < |flat| {
      assert !Less(flat[start + p].ikey, target) by {
        if p < |block| {
          FlatAt(index, blockOf, n, p);
        } else {
          assert Less(index[n].ikey, flat[start + p].ikey);
        }
      }
    }
    LowerBoundUnique(flat, target, start + p);
  }

  lemma SeekPastAll(index: seq<Entry>, blockOf: Bytes -> seq<Entry>, target: InternalKey)
    requires IndexSeparates(index, blockOf) && LowerBound(index, target) == |index|
    ensures LowerBound(Flat(index, blockOf), target) == |Flat(index, blockOf)|
  {
    var flat := Flat(index, blockOf);
    forall y | 0 <= y < |flat|
      ensures Less(flat[y].ikey, target)
    {
      assert flat[y] in FlatFirst(index, blockOf, |index| - 1 + 1);
      assert Less(index[|index| - 1].ikey, target);
    }
    LowerBoundUnique(flat, target, |flat|);
  }

  lemma LowerBoundUnique(es: seq<Entry>, target: InternalKey, r: nat)
    requires r <= |es| && (forall y :: 0 <= y < r ==> Less(es[y].ikey, target))
    requires r < |es| ==> !Less(es[r].ikey, target)
    ensures LowerBound(es, target) == r
  {
  }
}
