/** Block::Iter (table/block.cc): over a finished block it is a cursor on exactly the pairs
  that were added, and Seek lands on the least key at or after the target. */
module BlockIterator {
  import opened Wrappers
  import opened Keys
  import opened Coding
  import opened BlockFormat
  import opened Block

  ghost predicate Transitive(less: (Bytes, Bytes) -> bool) {
    forall a, b, c :: less(a, b) && less(b, c) ==> less(a, c)
  }

  // The builder asserts that keys come in strictly ascending order.
  ghost predicate AscendingKeys(less: (Bytes, Bytes) -> bool, pairs: seq<Pair>) {
    forall i, j :: 0 <= i < j < |pairs| ==> less(pairs[i].key, pairs[j].key)
  }

  // Block::NumRestarts and the constructor of Block; None is the error marker.
  function RestartOffset(data: Bytes): Option<(nat, nat)> {
    if |data| < 4 then None
    else
      var n := DecodeFixed32(data[|data| - 4..]);
      if n > (|data| - 4) / 4 then None else Some((|data| - (1 + n) * 4, n))
  }

  lemma FinishedOpens(data: Bytes, l: Layout)
    requires Finished(data, l)
    ensures RestartOffset(data) == Some((l.offsets[|l.pairs|], |l.restarts|))
  {
  }

  class Iter {
    const data: Bytes
    const restarts: nat
    const numRestarts: nat
    const less: (Bytes, Bytes) -> bool
    ghost const layout: Layout

    // Offset of the current entry, and the restart block it falls in.
    var current: nat
    var restartIndex: nat
    var key: Bytes
    // The value is data[valueStart..valueEnd].
    var valueStart: nat
    var valueEnd: nat
    // The current entry; the number of entries if there is none.
    ghost var pos: nat

    ghost predicate Base()
    {
      && Finished(data, layout)
      && restarts == layout.offsets[|layout.pairs|] && numRestarts == |layout.restarts|
    }

    ghost predicate AtEntry(i: nat)
      requires Base() && i < |layout.pairs|
      reads this
    {
      && current == layout.offsets[i] && valueEnd == layout.offsets[i + 1]
      && key == layout.pairs[i].key
      && valueStart <= valueEnd <= |data| && data[valueStart..valueEnd] == layout.pairs[i].value
      && InBlock(restartIndex, i)
    }

    // Entry i is in restart block r, or the first of the next one.
    ghost predicate InBlock(r: nat, i: nat)
      requires Base()
    {
      r < numRestarts && layout.restarts[r] <= i && (r + 1 < numRestarts ==> i <= layout.restarts[r + 1])
    }

    ghost predicate Ok()
      reads this
    {
      && Base() && pos <= |layout.pairs|
      && (pos < |layout.pairs| ==> AtEntry(pos))
      && (pos == |layout.pairs| ==> current == restarts && restartIndex == numRestarts)
    }

    // ParseNextKey would read entry i next.
    ghost predicate Ready(i: nat)
      reads this
    {
      && Base() && i <= |layout.pairs| && valueEnd == layout.offsets[i]
      && restartIndex < numRestarts && (i < |layout.pairs| ==> layout.restarts[restartIndex] <= i)
      && (i < |layout.pairs| ==> layout.shared[i] == 0 || key == PreviousKey(layout, i))
    }

    constructor (contents: Bytes, comparator: (Bytes, Bytes) -> bool, ghost l: Layout)
      requires Finished(contents, l)
      ensures Ok() && pos == |l.pairs| && data == contents && layout == l && less == comparator
    {
      data, less, layout := contents, comparator, l;
      var n := DecodeFixed32(contents[|contents| - 4..]);
      restarts, numRestarts := |contents| - (1 + n) * 4, n;
      current, restartIndex := |contents| - (1 + n) * 4, n;
      key, valueStart, valueEnd, pos := [], 0, 0, |l.pairs|;
    }

    predicate Valid()
      reads this
    {
      current < restarts
    }

    lemma ValidMeans()
      requires Ok()
      ensures Valid() <==> pos < |layout.pairs|
    {
      if pos < |layout.pairs| {
        OffsetsAscend(data, layout, pos, |layout.pairs|);
      }
    }

    // GetRestartPoint.
    function Point(index: nat): nat
      requires restarts + index * 4 + 4 <= |data|
    {
      DecodeFixed32(data[restarts + index * 4..])
    }

    lemma PointIs(index: nat)
      requires Base() && index < numRestarts
      ensures restarts + index * 4 + 4 <= |data|
      ensures layout.restarts[index] <= |layout.pairs| && Point(index) == layout.offsets[layout.restarts[index]]
      ensures layout.restarts[index] < |layout.pairs| || (index == 0 && layout.restarts[index] == 0 == |layout.pairs|)
      ensures layout.restarts[index] < |layout.pairs| ==> layout.shared[layout.restarts[index]] == 0
    {
      assert RestartAt(layout, index) && PointAt(data, layout, index);
      if index > 0 {
        RestartsAscend(layout, 0, index);
      }
    }

    // Offsets and entries are in the same order.
    lemma OffsetOrder(i: nat, j: nat)
      requires Base() && i <= |layout.pairs| && j <= |layout.pairs|
      ensures i < j <==> layout.offsets[i] < layout.offsets[j]
    {
      OffsetsAscend(data, layout, if i < j then i else j, if i < j then j else i);
    }

    method SeekToRestartPoint(index: nat)
      requires Base() && index < numRestarts
      modifies this`key, this`restartIndex, this`valueStart, this`valueEnd
      ensures Ready(layout.restarts[index]) && restartIndex == index
    {
      PointIs(index);
      key := [];
      restartIndex := index;
      var offset := Point(index);
      valueStart, valueEnd := offset, offset;
    }

    // Mark as invalid.
    method MarkInvalid()
      requires Base()
      modifies this`current, this`restartIndex, this`pos
      ensures Ok() && pos == |layout.pairs|
    {
      current, restartIndex, pos := restarts, numRestarts, |layout.pairs|;
    }

    // The loop that moves the restart index up to the current entry.
    method AdvanceRestartIndex(ghost i: nat)
      requires Base() && i < |layout.pairs| && current == layout.offsets[i]
      requires restartIndex < numRestarts && layout.restarts[restartIndex] <= i
      modifies this`restartIndex
      ensures InBlock(restartIndex, i)
    {
      while restartIndex + 1 < numRestarts
        invariant restartIndex < numRestarts && layout.restarts[restartIndex] <= i
        decreases numRestarts - restartIndex
      {
        PointIs(restartIndex + 1);
        OffsetOrder(layout.restarts[restartIndex + 1], i);
        if Point(restartIndex + 1) >= current {
          break;
        }
        restartIndex := restartIndex + 1;
      }
    }

    method ParseNextKey(ghost i: nat) returns (ok: bool)
      requires Ready(i)
      modifies this
      ensures Ok() && pos == i && (ok <==> i < |layout.pairs|)
    {
      current := valueEnd;
      OffsetOrder(i, |layout.pairs|);
      if current >= restarts {
        // No more entries to return.
        MarkInvalid();
        return false;
      }
      DecodeAt(data, layout, i, restarts);
      var d := DecodeEntry(data[current..restarts]);
      if d.None? || |key| < d.value.shared {
        // Corruption: not in a block that was finished.
        assert false;
      } else {
        ReadEntry(d.value, i);
        AdvanceRestartIndex(i);
      }
      pos := i;
      return true;
    }

    // Put the key together and find the value.
    method ReadEntry(h: Header, ghost i: nat)
      requires Base() && i < |layout.pairs| && h.shared <= |key|
      requires layout.shared[i] == 0 || key == PreviousKey(layout, i)
      requires var p, s := layout.pairs[i], layout.shared[i];
               && s <= |p.key| && s <= |PreviousKey(layout, i)| && PreviousKey(layout, i)[..s] + p.key[s..] == p.key
               && layout.offsets[i + 1] <= restarts <= |data|
               && h == Header(s, |p.key| - s, |p.value|, p.key[s..] + p.value + data[layout.offsets[i + 1]..restarts])
      modifies this`key, this`valueStart, this`valueEnd
      ensures key == layout.pairs[i].key && valueEnd == layout.offsets[i + 1]
      ensures valueStart <= valueEnd <= |data| && data[valueStart..valueEnd] == layout.pairs[i].value
    {
      EntryEnds(i, h.rest);
      ghost var p, s := layout.pairs[i], layout.shared[i];
      Prefix(p.key[s..], p.value, data[layout.offsets[i + 1]..restarts]);
      key := key[..h.shared] + h.rest[..h.nonShared];
      valueStart := restarts - |h.rest| + h.nonShared;
      valueEnd := valueStart + h.valueLength;
    }

    lemma Prefix(a: Bytes, b: Bytes, c: Bytes)
      ensures (a + b + c)[..|a|] == a
    {
    }

    // The bytes after the key are the value, up to where the next entry starts.
    lemma EntryEnds(i: nat, rest: Bytes)
      requires Base() && i < |layout.pairs|
      requires var p, s := layout.pairs[i], layout.shared[i];
               s <= |p.key| && layout.offsets[i + 1] <= restarts <= |data|
               && rest == p.key[s..] + p.value + data[layout.offsets[i + 1]..restarts]
      ensures var p, s := layout.pairs[i], layout.shared[i];
              var start := restarts - |rest| + (|p.key| - s);
              && 0 <= start && start + |p.value| == layout.offsets[i + 1]
              && data[start..start + |p.value|] == p.value
    {
      var p, s := layout.pairs[i], layout.shared[i];
      assert EntryAt(data, layout, i);
      var a, b := layout.offsets[i], layout.offsets[i + 1];
      var entry := EncodeEntry(s, p);
      EntrySize(s, p);
      assert entry[|entry| - |p.value|..] == p.value;
      assert data[b - |p.value|..b] == data[a..b][|entry| - |p.value|..];
    }

    method SeekToFirst()
      requires Base()
      modifies this
      ensures Ok() && pos == 0
    {
      SeekToRestartPoint(0);
      var _ := ParseNextKey(0);
    }

    method Next()
      requires Ok() && Valid()
      modifies this
      ensures Ok() && pos == old(pos) + 1
    {
      ValidMeans();
      var _ := ParseNextKey(pos + 1);
    }

    // Read on from entry i until the entry that ends at `end`, the offset of entry j.
    method ScanTo(end: nat, ghost i: nat, ghost j: nat)
      requires Ready(i) && (i < j <= |layout.pairs| || i == j == |layout.pairs|) && end == layout.offsets[j]
      modifies this
      ensures Ok() && pos == if i == j then j else j - 1
    {
      var ok := ParseNextKey(i);
      if i < j {
        OffsetOrder(pos + 1, j);
      }
      while ok && valueEnd < end
        invariant Ok() && (ok <==> i < j)
        invariant ok ==> i <= pos < j && (valueEnd < end <==> pos + 1 < j)
        invariant !ok ==> pos == j
        decreases j - pos
      {
        ok := ParseNextKey(pos + 1);
        OffsetOrder(pos + 1, j);
      }
    }

    method Prev()
      requires Ok() && Valid()
      modifies this
      ensures Ok() && pos == if old(pos) == 0 then |layout.pairs| else old(pos) - 1
    {
      ValidMeans();
      var original := current;
      // Scan backwards to a restart point before the current entry.
      while true
        invariant Base() && pos == old(pos) && restartIndex < numRestarts
        decreases restartIndex
      {
        PointIs(restartIndex);
        OffsetOrder(layout.restarts[restartIndex], pos);
        if Point(restartIndex) < original {
          break;
        }
        if restartIndex == 0 {
          // No more entries.
          MarkInvalid();
          return;
        }
        restartIndex := restartIndex - 1;
      }
      ghost var p := pos;
      SeekToRestartPoint(restartIndex);
      ScanTo(original, layout.restarts[restartIndex], p);
    }

    method SeekToLast()
      requires Base()
      modifies this
      ensures Ok() && pos == if |layout.pairs| == 0 then 0 else |layout.pairs| - 1
    {
      SeekToRestartPoint(numRestarts - 1);
      PointIs(numRestarts - 1);
      ScanTo(restarts, layout.restarts[numRestarts - 1], |layout.pairs|);
    }

    // Everything before entry i is below the target.
    ghost predicate Below(target: Bytes, i: nat)
      requires Base()
    {
      i <= |layout.pairs| && forall k :: 0 <= k < i ==> less(layout.pairs[k].key, target)
    }

    lemma BelowRestart(target: Bytes, i: nat)
      requires Base() && Transitive(less) && AscendingKeys(less, layout.pairs)
      requires i < |layout.pairs| && less(layout.pairs[i].key, target)
      ensures Below(target, i)
    {
    }

    // The binary search over the restart points.
    method FindRestart(target: Bytes) returns (left: nat)
      requires Base() && Transitive(less) && AscendingKeys(less, layout.pairs)
      ensures left < numRestarts && Below(target, layout.restarts[left])
    {
      left := 0;
      var right := numRestarts - 1;
      while left < right
        invariant left <= right < numRestarts && Below(target, layout.restarts[left])
      {
        var mid := (left + right + 1) / 2;
        PointIs(mid);
        var regionOffset := Point(mid);
        ghost var i := layout.restarts[mid];
        DecodeAt(data, layout, i, restarts);
        var d := DecodeEntry(data[regionOffset..restarts]);
        assert d.Some? && d.value.shared == 0;
        var midKey := d.value.rest[..d.value.nonShared];
        assert midKey == layout.pairs[i].key;
        if less(midKey, target) {
          BelowRestart(target, i);
          left := mid;
        } else {
          right := mid - 1;
        }
      }
    }

    // The first entry whose key is at or after the target, or none.
    method Seek(target: Bytes)
      requires Base() && Transitive(less) && AscendingKeys(less, layout.pairs)
      modifies this
      ensures Ok() && Below(target, pos)
      ensures pos < |layout.pairs| ==> !less(layout.pairs[pos].key, target)
    {
      var left := FindRestart(target);
      SeekToRestartPoint(left);
      var ok := ParseNextKey(layout.restarts[left]);
      while ok && less(key, target)
        invariant Ok() && Below(target, pos) && (ok <==> pos < |layout.pairs|)
        decreases |layout.pairs| - pos
      {
        ok := ParseNextKey(pos + 1);
      }
    }
  }
}
