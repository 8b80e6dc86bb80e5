/** Building a block (table/block_builder.cc): what the finished bytes hold, entry by entry,
  and where the restart points are. */
module Block {
  import opened Wrappers
  import opened Keys
  import opened Coding
  import opened BlockFormat

  // The restart array as bytes.
  function FixedArray(xs: seq<uint32>): (r: Bytes)
    ensures |r| == 4 * |xs|
  {
    if xs == [] then [] else FixedArray(xs[..|xs| - 1]) + EncodeFixed32(xs[|xs| - 1])
  }

  lemma {:induction false} FixedAt(before: Bytes, xs: seq<uint32>, j: nat, after: Bytes)
    requires j < |xs|
    ensures DecodeFixed32((before + FixedArray(xs) + after)[|before| + 4 * j..]) == xs[j]
    decreases |xs|
  {
    var init, last := xs[..|xs| - 1], EncodeFixed32(xs[|xs| - 1]);
    assert before + FixedArray(xs) + after == before + FixedArray(init) + (last + after);
    if j == |xs| - 1 {
      var s := before + FixedArray(init);
      assert (s + (last + after))[|s|..] == last + after;
      Fixed32RoundTrip(xs[j], after);
    } else {
      FixedAt(before, init, j, last + after);
    }
  }

  ghost predicate PointAt(block: Bytes, l: Layout, j: nat)
    requires j < |l.restarts| && l.restarts[j] < |l.offsets| && l.offsets != []
  {
    var at := l.offsets[|l.offsets| - 1] + 4 * j;
    at + 4 <= |block| && DecodeFixed32(block[at..]) == l.offsets[l.restarts[j]]
  }

  // A finished block with this layout.
  ghost predicate Finished(block: Bytes, l: Layout) {
    && EntriesAt(block, l) && RestartsAt(l)
    && |block| == l.offsets[|l.pairs|] + 4 * |l.restarts| + 4
    && DecodeFixed32(block[|block| - 4..]) == |l.restarts|
    && forall j :: 0 <= j < |l.restarts| ==> RestartAt(l, j) && PointAt(block, l, j)
  }

  lemma EntriesExtend(data: Bytes, l: Layout, more: Bytes)
    requires EntriesAt(data, l) && |data| + |more| < 0x1_0000_0000
    ensures EntriesAt(data + more, l)
  {
    forall i | 0 <= i < |l.pairs|
      ensures EntryAt(data + more, l, i)
    {
      assert EntryAt(data, l, i);
      OffsetsAscend(data, l, i, i + 1);
      OffsetsAscend(data, l, i + 1, |l.pairs|);
      assert (data + more)[l.offsets[i]..l.offsets[i + 1]] == data[l.offsets[i]..l.offsets[i + 1]];
    }
  }

  // One more entry at the end.
  function AddTo(l: Layout, p: Pair, shared: nat, restart: bool): Layout
    requires |l.offsets| == |l.pairs| + 1 && shared <= |p.key|
  {
    var n := |l.pairs|;
    Layout(l.pairs + [p], l.offsets + [l.offsets[n] + |EncodeEntry(shared, p)|], l.shared + [shared],
           if restart then l.restarts + [n] else l.restarts)
  }

  lemma AddedEntries(data: Bytes, l: Layout, p: Pair, shared: nat, restart: bool)
    requires EntriesAt(data, l) && |data| == l.offsets[|l.pairs|]
    requires shared <= |p.key| && shared <= |PreviousKey(l, |l.pairs|)|
    requires PreviousKey(l, |l.pairs|)[..shared] == p.key[..shared]
    requires |data| + |EncodeEntry(shared, p)| < 0x1_0000_0000
    ensures EntriesAt(data + EncodeEntry(shared, p), AddTo(l, p, shared, restart))
  {
    var more, m := data + EncodeEntry(shared, p), AddTo(l, p, shared, restart);
    EntriesExtend(data, l, EncodeEntry(shared, p));
    forall i | 0 <= i < |m.pairs|
      ensures EntryAt(more, m, i)
    {
      if i < |l.pairs| {
        assert EntryAt(more, l, i);
        assert PreviousKey(m, i) == PreviousKey(l, i);
      } else {
        assert PreviousKey(m, i) == PreviousKey(l, i);
        assert more[|data|..] == EncodeEntry(shared, p);
      }
    }
  }

  lemma AddedRestarts(l: Layout, p: Pair, shared: nat, restart: bool)
    requires RestartsAt(l) && |l.offsets| == |l.pairs| + 1 && shared <= |p.key|
    requires restart || l.pairs == [] ==> shared == 0
    requires restart ==> l.pairs != [] && |l.restarts| + 1 < 0x1_0000_0000
    ensures RestartsAt(AddTo(l, p, shared, restart))
  {
    var m := AddTo(l, p, shared, restart);
    forall j | 0 <= j < |m.restarts|
      ensures RestartAt(m, j)
    {
      if j < |l.restarts| {
        assert RestartAt(l, j);
      } else {
        assert RestartAt(l, j - 1);
      }
    }
  }

  // The builder's offsets are those of its restart points.
  ghost predicate PointsOk(l: Layout, points: seq<uint32>) {
    && |points| == |l.restarts| && RestartsAt(l) && |l.offsets| == |l.pairs| + 1
    && forall j {:trigger RestartAt(l, j)} :: 0 <= j < |points| ==>
         RestartAt(l, j) && points[j] == l.offsets[l.restarts[j]]
  }

  lemma CountAtEnd(x: Bytes, n: uint32)
    ensures DecodeFixed32((x + EncodeFixed32(n))[|x|..]) == n
  {
    assert (x + EncodeFixed32(n))[|x|..] == EncodeFixed32(n) + [];
    Fixed32RoundTrip(n, []);
  }

  lemma FinishedPoint(data: Bytes, l: Layout, points: seq<uint32>, j: nat, count: Bytes)
    requires PointsOk(l, points) && |data| == l.offsets[|l.pairs|] && j < |points| && |count| == 4
    ensures RestartAt(l, j) && PointAt(data + FixedArray(points) + count, l, j)
  {
    assert RestartAt(l, j) && points[j] == l.offsets[l.restarts[j]];
    var at := l.offsets[|l.offsets| - 1] + 4 * j;
    var block := data + FixedArray(points) + count;
    assert DecodeFixed32(block[at..]) == points[j] by {
      FixedAt(data, points, j, count);
      assert at == |data| + 4 * j;
    }
  }

  lemma FinishedLayout(data: Bytes, l: Layout, points: seq<uint32>, count: Bytes)
    requires EntriesAt(data, l) && |data| == l.offsets[|l.pairs|] && PointsOk(l, points)
    requires |data| + 4 * |points| + 4 < 0x1_0000_0000 && count == EncodeFixed32(|points|)
    ensures Finished(data + FixedArray(points) + count, l)
  {
    var block := data + FixedArray(points) + count;
    assert block == data + (FixedArray(points) + count);
    EntriesExtend(data, l, FixedArray(points) + count);
    CountAtEnd(data + FixedArray(points), |points|);
    forall j | 0 <= j < |l.restarts|
      ensures RestartAt(l, j) && PointAt(block, l, j)
    {
      FinishedPoint(data, l, points, j, count);
    }
  }

  lemma AddedPoints(l: Layout, points: seq<uint32>, p: Pair, shared: nat, restart: bool, size: uint32)
    requires PointsOk(l, points) && size == l.offsets[|l.pairs|] && shared <= |p.key|
    requires restart || l.pairs == [] ==> shared == 0
    requires restart ==> l.pairs != [] && |l.restarts| + 1 < 0x1_0000_0000
    ensures PointsOk(AddTo(l, p, shared, restart), if restart then points + [size] else points)
  {
    AddedRestarts(l, p, shared, restart);
    var m := AddTo(l, p, shared, restart);
    forall j | 0 <= j < |m.restarts|
      ensures RestartAt(m, j)
      ensures (if restart then points + [size] else points)[j] == m.offsets[m.restarts[j]]
    {
      if j < |points| {
        assert RestartAt(l, j) && points[j] == l.offsets[l.restarts[j]];
      }
    }
  }

  // A restart point every `interval` entries, and none overdue.
  ghost predicate Spaced(l: Layout, interval: nat, counter: nat) {
    && l.restarts != [] && |l.pairs| == l.restarts[|l.restarts| - 1] + counter && counter <= interval
    && forall j :: 0 < j < |l.restarts| ==> SpacedAt(l, interval, j)
  }

  predicate SpacedAt(l: Layout, interval: nat, j: nat)
    requires 0 < j < |l.restarts|
  {
    l.restarts[j] == l.restarts[j - 1] + interval
  }

  // Entry i drops all that its key has in common with the key before it.
  predicate LongestAt(l: Layout, i: nat)
    requires i < |l.pairs| == |l.shared|
  {
    var key, before, s := l.pairs[i].key, PreviousKey(l, i), l.shared[i];
    s < |key| && s < |before| ==> before[s] != key[s]
  }

  // Every entry but those at restart points.
  ghost predicate Compressed(l: Layout) {
    |l.shared| == |l.pairs| && forall i :: 0 <= i < |l.pairs| ==> i in l.restarts || LongestAt(l, i)
  }

  lemma AddedCompressed(l: Layout, p: Pair, shared: nat, restart: bool)
    requires Compressed(l) && |l.offsets| == |l.pairs| + 1 && shared <= |p.key|
    requires !restart ==> shared < |p.key| && shared < |PreviousKey(l, |l.pairs|)| ==>
               PreviousKey(l, |l.pairs|)[shared] != p.key[shared]
    ensures Compressed(AddTo(l, p, shared, restart))
  {
    var m, n := AddTo(l, p, shared, restart), |l.pairs|;
    forall i | 0 <= i < |m.pairs|
      ensures i in m.restarts || LongestAt(m, i)
    {
      assert PreviousKey(m, i) == PreviousKey(l, i);
      if i < n {
        assert i in l.restarts || LongestAt(l, i);
      } else if restart {
        assert m.restarts[|l.restarts|] == n;
      }
    }
  }

  ghost predicate BuilderOk(buffer: Bytes, l: Layout, points: seq<uint32>, interval: nat, counter: nat, lastKey: Bytes) {
    && EntriesAt(buffer, l) && |buffer| == l.offsets[|l.pairs|]
    && PointsOk(l, points) && Spaced(l, interval, counter) && Compressed(l)
    && lastKey == PreviousKey(l, |l.pairs|)
  }

  lemma AddedSpaced(l: Layout, interval: nat, counter: nat, p: Pair, shared: nat, restart: bool)
    requires Spaced(l, interval, counter) && interval >= 1 && (restart <==> counter >= interval)
    requires |l.offsets| == |l.pairs| + 1 && shared <= |p.key|
    ensures Spaced(AddTo(l, p, shared, restart), interval, if restart then 1 else counter + 1)
  {
    var m := AddTo(l, p, shared, restart);
    forall j | 0 < j < |m.restarts|
      ensures SpacedAt(m, interval, j)
    {
      assert j < |l.restarts| ==> SpacedAt(l, interval, j);
    }
  }

  lemma BuilderAdds(buffer: Bytes, l: Layout, points: seq<uint32>, interval: nat, counter: nat, lastKey: Bytes,
      p: Pair, shared: nat, restart: bool)
    requires BuilderOk(buffer, l, points, interval, counter, lastKey) && interval >= 1
    requires shared <= |p.key| && shared <= |lastKey| && lastKey[..shared] == p.key[..shared]
    requires (restart <==> counter >= interval) && (restart ==> shared == 0)
    requires !restart && shared < |p.key| && shared < |lastKey| ==> lastKey[shared] != p.key[shared]
    requires |buffer| + |EncodeEntry(shared, p)| < 0x1_0000_0000 && |points| + 1 < 0x1_0000_0000
    ensures BuilderOk(buffer + EncodeEntry(shared, p), AddTo(l, p, shared, restart),
                      if restart then points + [|buffer|] else points, interval,
                      if restart then 1 else counter + 1, p.key)
  {
    AddedEntries(buffer, l, p, shared, restart);
    AddedPoints(l, points, p, shared, restart, |buffer|);
    AddedSpaced(l, interval, counter, p, shared, restart);
    AddedCompressed(l, p, shared, restart);
  }

  class BlockBuilder {
    const interval: nat
    var buffer: Bytes
    var restarts: seq<uint32>
    var counter: nat
    var lastKey: Bytes
    var finished: bool
    ghost var layout: Layout

    ghost predicate Valid()
      reads this
    {
      interval >= 1 && !finished && BuilderOk(buffer, layout, restarts, interval, counter, lastKey)
    }

    constructor (blockRestartInterval: nat)
      requires blockRestartInterval >= 1
      ensures Valid() && layout.pairs == [] && interval == blockRestartInterval && CurrentSizeEstimate() == 8
    {
      interval, buffer, restarts, counter, lastKey, finished := blockRestartInterval, [], [0], 0, [], false;
      layout := Layout([], [0], [], [0]);
    }

    predicate Empty()
      reads this
    {
      buffer == []
    }

    lemma EmptyMeans()
      requires Valid()
      ensures Empty() <==> layout.pairs == []
    {
      OffsetsAscend(buffer, layout, 0, |layout.pairs|);
    }

    // As freshly made; the builder is used again for the next block.
    method Reset()
      requires interval >= 1
      modifies this
      ensures Valid() && layout.pairs == [] && CurrentSizeEstimate() == 8
    {
      buffer, restarts, counter, lastKey, finished := [], [0], 0, [], false;
      layout := Layout([], [0], [], [0]);
    }

    function CurrentSizeEstimate(): nat
      reads this
    {
      |buffer| + 4 * |restarts| + 4
    }

    // How much to share with the previous key.
    method SharedLength(key: Bytes) returns (shared: nat)
      ensures shared <= |key| && shared <= |lastKey| && lastKey[..shared] == key[..shared]
      ensures shared < |key| && shared < |lastKey| ==> lastKey[shared] != key[shared]
    {
      shared := 0;
      var minLength := if |lastKey| < |key| then |lastKey| else |key|;
      while shared < minLength && lastKey[shared] == key[shared]
        invariant shared <= minLength && lastKey[..shared] == key[..shared]
      {
        shared := shared + 1;
      }
    }

    // Valid says how: a restart point every `interval` entries, and between them each entry
    // drops all that its key shares with the one before. Offsets are 32 bits wide, so the block
    // has to stay below 4 GB.
    method Add(key: Slice, value: Slice)
      requires Valid() && CurrentSizeEstimate() + |key| + |value| + 19 < 0x1_0000_0000
      modifies this
      ensures Valid() && layout.pairs == old(layout.pairs) + [Pair(key, value)]
      ensures CurrentSizeEstimate() <= old(CurrentSizeEstimate()) + |key| + |value| + 19
    {
      var shared := 0;
      if counter < interval {
        shared := SharedLength(key);
      }
      Append(Pair(key, value), shared, counter >= interval);
    }

    method Append(p: Pair, shared: nat, restart: bool)
      requires Valid() && CurrentSizeEstimate() + |p.key| + |p.value| + 19 < 0x1_0000_0000
      requires shared <= |p.key| && shared <= |lastKey| && lastKey[..shared] == p.key[..shared]
      requires restart <==> counter >= interval
      requires restart ==> shared == 0
      requires !restart && shared < |p.key| && shared < |lastKey| ==> lastKey[shared] != p.key[shared]
      modifies this
      ensures Valid() && layout == AddTo(old(layout), p, shared, restart)
      ensures CurrentSizeEstimate() <= old(CurrentSizeEstimate()) + |p.key| + |p.value| + 19
    {
      EntryBound(shared, p);
      BuilderAdds(buffer, layout, restarts, interval, counter, lastKey, p, shared, restart);
      if restart {
        restarts := restarts + [|buffer|];
        counter := 0;
      }
      buffer := buffer + EncodeEntry(shared, p);
      lastKey := p.key;
      counter := counter + 1;
      layout := AddTo(layout, p, shared, restart);
    }

    method Finish() returns (block: Bytes)
      requires Valid() && CurrentSizeEstimate() < 0x1_0000_0000
      modifies this
      ensures finished && layout == old(layout) && block == buffer && Finished(block, layout)
      ensures |block| == old(CurrentSizeEstimate())
    {
      FinishedLayout(buffer, layout, restarts, EncodeFixed32(|restarts|));
      var tail := EncodeRestarts();
      buffer := buffer + tail;
      buffer := buffer + EncodeFixed32(|restarts|);
      finished := true;
      block := buffer;
    }

    method EncodeRestarts() returns (r: Bytes)
      ensures r == FixedArray(restarts)
    {
      r := [];
      var i := 0;
      while i < |restarts|
        invariant 0 <= i <= |restarts| && r == FixedArray(restarts[..i])
      {
        assert restarts[..i + 1][..i] == restarts[..i];
        r := r + EncodeFixed32(restarts[i]);
        i := i + 1;
      }
      assert restarts[..|restarts|] == restarts;
    }
  }

  lemma VarintSize(v: uint32)
    ensures |EncodeVarint(v)| <= 5
  {
    UnrolledVarint(v);
  }

  lemma EntryBound(shared: nat, p: Pair)
    requires shared <= |p.key|
    ensures |EncodeEntry(shared, p)| <= 15 + |p.key| + |p.value|
  {
    VarintSize(shared);
    VarintSize(|p.key| - shared);
    VarintSize(|p.value|);
  }
}
