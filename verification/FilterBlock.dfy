/** The filter block of a table (table/filter_block.cc): one filter for the keys of the data
  blocks that begin in each 2 KB of the file. */
module FilterBlock {
  import opened Keys
  import opened Coding
  import opened Block

  // CreateFilter (what it appends) and KeyMayMatch of a filter policy.
  datatype FilterPolicy = FilterPolicy(create: seq<Bytes> -> Bytes, mayMatch: (Bytes, Bytes) -> bool)

  const FILTER_BASE_LG: Byte := 11
  const FILTER_BASE: nat := 2048

  function ShiftRight(x: nat, n: nat): nat {
    if n == 0 then x else ShiftRight(x / 2, n - 1)
  }

  // No filter is made for no keys.
  function FilterOf(policy: FilterPolicy, keys: seq<Bytes>): Bytes {
    if keys == [] then [] else policy.create(keys)
  }

  // The filters of the first n groups of keys, one after the other.
  function Filters(policy: FilterPolicy, groups: seq<seq<Bytes>>, n: nat): Bytes
    requires n <= |groups|
  {
    if n == 0 then [] else Filters(policy, groups, n - 1) + FilterOf(policy, groups[n - 1])
  }

  // The cast of a size to uint32_t.
  function Low32(n: nat): (r: uint32)
    ensures n < 0x1_0000_0000 ==> r == n
  {
    n % 0x1_0000_0000
  }

  // Where each of them begins, cut to 32 bits.
  function Offsets(policy: FilterPolicy, groups: seq<seq<Bytes>>, n: nat): (r: seq<uint32>)
    requires n <= |groups|
    ensures |r| == n
  {
    if n == 0 then []
    else Offsets(policy, groups, n - 1) + [Low32(|Filters(policy, groups, n - 1)|)]
  }

  // The block: the data, the offset array, which ends with its own offset, and the base.
  function Packed(all: Bytes, xs: seq<uint32>): Bytes {
    all + FixedArray(xs + [Low32(|all|)]) + [FILTER_BASE_LG]
  }

  function Contents(policy: FilterPolicy, groups: seq<seq<Bytes>>): Bytes {
    Packed(Filters(policy, groups, |groups|), Offsets(policy, groups, |groups|))
  }

  lemma {:induction false} FiltersOfMore(policy: FilterPolicy, groups: seq<seq<Bytes>>, more: seq<seq<Bytes>>, n: nat)
    requires n <= |groups| <= |more| && more[..|groups|] == groups
    ensures Filters(policy, more, n) == Filters(policy, groups, n)
    decreases n
  {
    if n > 0 {
      assert more[..|groups|][n - 1] == groups[n - 1];
      FiltersOfMore(policy, groups, more, n - 1);
    }
  }

  lemma {:induction false} OffsetsOfMore(policy: FilterPolicy, groups: seq<seq<Bytes>>, more: seq<seq<Bytes>>, n: nat)
    requires n <= |groups| <= |more| && more[..|groups|] == groups
    ensures Offsets(policy, more, n) == Offsets(policy, groups, n)
    decreases n
  {
    if n > 0 {
      OffsetsOfMore(policy, groups, more, n - 1);
      FiltersOfMore(policy, groups, more, n - 1);
    }
  }

  lemma {:induction false} OffsetsAt(policy: FilterPolicy, groups: seq<seq<Bytes>>, n: nat, i: nat)
    requires i < n <= |groups|
    ensures Offsets(policy, groups, n)[i] == Low32(|Filters(policy, groups, i)|)
    decreases n
  {
    if i < n - 1 {
      OffsetsAt(policy, groups, n - 1, i);
    }
  }

  // The keys, flattened.
  function Joined(keys: seq<Bytes>, n: nat): Bytes
    requires n <= |keys|
  {
    if n == 0 then [] else Joined(keys, n - 1) + keys[n - 1]
  }

  lemma {:induction false} JoinedOfMore(keys: seq<Bytes>, key: Bytes, n: nat)
    requires n <= |keys|
    ensures Joined(keys + [key], n) == Joined(keys, n)
    decreases n
  {
    if n > 0 {
      JoinedOfMore(keys, key, n - 1);
    }
  }

  lemma {:induction false} JoinedAt(keys: seq<Bytes>, i: nat, n: nat)
    requires i < n <= |keys|
    ensures |Joined(keys, i)| + |keys[i]| == |Joined(keys, i + 1)| <= |Joined(keys, n)|
    ensures Joined(keys, n)[|Joined(keys, i)|..|Joined(keys, i + 1)|] == keys[i]
    decreases n
  {
    if i < n - 1 {
      JoinedAt(keys, i, n - 1);
    }
  }

  ghost predicate Flattened(flat: Bytes, start: seq<nat>, keys: seq<Bytes>) {
    && flat == Joined(keys, |keys|) && |start| == |keys|
    && forall i :: 0 <= i < |keys| ==> StartsAt(start, keys, i)
  }

  ghost predicate StartsAt(start: seq<nat>, keys: seq<Bytes>, i: nat)
    requires i < |start| && i < |keys|
  {
    start[i] == |Joined(keys, i)|
  }

  lemma FlattenedAdds(flat: Bytes, start: seq<nat>, keys: seq<Bytes>, key: Bytes)
    requires Flattened(flat, start, keys)
    ensures Flattened(flat + key, start + [|flat|], keys + [key])
  {
    JoinedOfMore(keys, key, |keys|);
    forall i | 0 <= i <= |keys|
      ensures StartsAt(start + [|flat|], keys + [key], i)
    {
      JoinedOfMore(keys, key, i);
      assert i < |keys| ==> StartsAt(start, keys, i);
    }
  }

  // The keys that filter j is, or would be, made of.
  ghost function KeysAt(groups: seq<seq<Bytes>>, waiting: seq<Bytes>, j: nat): seq<Bytes> {
    if j < |groups| then groups[j] else if j == |groups| then waiting else []
  }

  ghost predicate SameKeys(groups: seq<seq<Bytes>>, waiting: seq<Bytes>, groups': seq<seq<Bytes>>, waiting': seq<Bytes>) {
    forall j: nat :: KeysAt(groups', waiting', j) == KeysAt(groups, waiting, j)
  }

  // One more filter.
  lemma OneMoreFilter(policy: FilterPolicy, groups: seq<seq<Bytes>>, keys: seq<Bytes>)
    ensures var more := groups + [keys]; var n := |groups|;
            && Filters(policy, more, n + 1) == Filters(policy, groups, n) + FilterOf(policy, keys)
            && Offsets(policy, more, n + 1) == Offsets(policy, groups, n) + [Low32(|Filters(policy, groups, n)|)]
            && SameKeys(groups, keys, more, [])
  {
    FiltersOfMore(policy, groups, groups + [keys], |groups|);
    OffsetsOfMore(policy, groups, groups + [keys], |groups|);
  }

  lemma PackedInTurn(all: Bytes, xs: seq<uint32>)
    ensures all + FixedArray(xs) + EncodeFixed32(Low32(|all|)) + [FILTER_BASE_LG] == Packed(all, xs)
  {
    var ys := xs + [Low32(|all|)];
    assert ys[..|ys| - 1] == xs;
  }

  class FilterBlockBuilder {
    const policy: FilterPolicy
    var keys: Bytes
    var start: seq<nat>
    var result: Bytes
    var filterOffsets: seq<uint32>
    // The keys of the filters made so far, and those of the next one.
    ghost var groups: seq<seq<Bytes>>
    ghost var waiting: seq<Bytes>

    ghost predicate Valid()
      reads this
    {
      && result == Filters(policy, groups, |groups|) && filterOffsets == Offsets(policy, groups, |groups|)
      && Flattened(keys, start, waiting)
    }

    constructor (policy: FilterPolicy)
      ensures Valid() && groups == [] && waiting == [] && this.policy == policy && FilterData() == []
    {
      this.policy, keys, start, result, filterOffsets := policy, [], [], [], [];
      groups, waiting := [], [];
    }

    // The filters themselves, with the one still to be made.
    ghost function FilterData(): Bytes
      reads this
    {
      result + FilterOf(policy, waiting)
    }

    method GenerateFilter()
      requires Valid()
      modifies this
      ensures Valid() && groups == old(groups) + [old(waiting)] && waiting == []
      ensures FilterData() == old(FilterData())
      ensures SameKeys(old(groups), old(waiting), groups, waiting)
    {
      OneMoreFilter(policy, groups, waiting);
      filterOffsets := filterOffsets + [Low32(|result|)];
      if |start| == 0 {
        // Fast path if there are no keys for this filter.
        groups, waiting := groups + [waiting], [];
        return;
      }
      var tmpKeys := SplitKeys();
      result := result + policy.create(tmpKeys);
      keys, start := [], [];
      groups, waiting := groups + [waiting], [];
    }

    // The list of keys back from the flattened structure.
    method SplitKeys() returns (tmpKeys: seq<Bytes>)
      requires Flattened(keys, start, waiting)
      ensures tmpKeys == waiting
    {
      var ends := start + [|keys|];
      tmpKeys := [];
      var i := 0;
      while i < |start|
        invariant 0 <= i <= |start| && tmpKeys == waiting[..i]
      {
        JoinedAt(waiting, i, |waiting|);
        assert StartsAt(start, waiting, i) && (i + 1 < |start| ==> StartsAt(start, waiting, i + 1));
        assert ends[i + 1] == |Joined(waiting, i + 1)|;
        tmpKeys := tmpKeys + [keys[ends[i]..ends[i + 1]]];
        i := i + 1;
      }
    }

    // A data block is to begin at this offset.
    method StartBlock(blockOffset: nat)
      requires Valid() && blockOffset / FILTER_BASE >= |groups|
      modifies this
      ensures Valid() && |groups| == blockOffset / FILTER_BASE && FilterData() == old(FilterData())
      ensures SameKeys(old(groups), old(waiting), groups, waiting)
    {
      var filterIndex := blockOffset / FILTER_BASE;
      while filterIndex > |filterOffsets|
        invariant Valid() && |groups| <= filterIndex && FilterData() == old(FilterData())
        invariant SameKeys(old(groups), old(waiting), groups, waiting)
      {
        GenerateFilter();
      }
    }

    method AddKey(key: Bytes)
      requires Valid()
      modifies this
      ensures Valid() && groups == old(groups) && waiting == old(waiting) + [key] && result == old(result)
    {
      FlattenedAdds(keys, start, waiting, key);
      start := start + [|keys|];
      keys := keys + key;
      waiting := waiting + [key];
    }

    method EncodeOffsets() returns (r: Bytes)
      ensures r == FixedArray(filterOffsets)
    {
      r := [];
      var i := 0;
      while i < |filterOffsets|
        invariant 0 <= i <= |filterOffsets| && r == FixedArray(filterOffsets[..i])
      {
        assert filterOffsets[..i + 1][..i] == filterOffsets[..i];
        r := r + EncodeFixed32(filterOffsets[i]);
        i := i + 1;
      }
      assert filterOffsets[..|filterOffsets|] == filterOffsets;
    }

    method Finish() returns (r: Bytes)
      requires Valid()
      modifies this
      ensures r == Contents(policy, groups)
      ensures SameKeys(old(groups), old(waiting), groups, waiting)
      ensures waiting == [] && |groups| <= old(|groups|) + 1
      ensures Filters(policy, groups, |groups|) == old(FilterData())
    {
      if start != [] {
        GenerateFilter();
      }
      var arrayOffset := Low32(|result|);
      var offsets := EncodeOffsets();
      PackedInTurn(result, filterOffsets);
      result := result + offsets;
      result := result + EncodeFixed32(arrayOffset);
      result := result + [FILTER_BASE_LG];
      r := result;
    }
  }

  // FilterBlockReader: num filters, the offset array at `offset` in the data.
  datatype FilterBlockReader = FilterBlockReader(policy: FilterPolicy, data: Bytes, offset: nat, num: nat, baseLg: nat)
  {
    predicate InRange() {
      num > 0 ==> offset + 4 * num + 5 <= |data|
    }

    function OffsetAt(i: nat): nat
      requires offset + 4 * i + 4 <= |data|
    {
      DecodeFixed32(data[offset + 4 * i..])
    }

    // Whether filter `index` lets the key pass; anything that makes no sense does.
    function Consult(index: nat, key: Bytes): bool
      requires InRange()
    {
      if index < num then
        var start, limit := OffsetAt(index), OffsetAt(index + 1);
        if start <= limit && limit <= offset then policy.mayMatch(key, data[start..limit]) else start != limit
      else
        true
    }

    function KeyMayMatch(blockOffset: nat, key: Bytes): bool
      requires InRange()
    {
      Consult(ShiftRight(blockOffset, baseLg), key)
    }
  }

  // The constructor of FilterBlockReader; contents that make no sense leave no filters.
  function OpenFilters(policy: FilterPolicy, contents: Bytes): (r: FilterBlockReader)
    ensures r.InRange() && r.policy == policy
  {
    var n := |contents|;
    if n < 5 then FilterBlockReader(policy, [], 0, 0, 0)
    else
      var baseLg := contents[n - 1];
      var lastWord := DecodeFixed32(contents[n - 5..]);
      if lastWord > n - 5 then FilterBlockReader(policy, [], 0, 0, baseLg)
      else FilterBlockReader(policy, contents, lastWord, (n - 5 - lastWord) / 4, baseLg)
  }

  lemma {:induction false} FiltersAt(policy: FilterPolicy, groups: seq<seq<Bytes>>, i: nat, n: nat)
    requires i < n <= |groups|
    ensures |Filters(policy, groups, i)| <= |Filters(policy, groups, i + 1)| <= |Filters(policy, groups, n)|
    ensures Filters(policy, groups, n)[|Filters(policy, groups, i)|..|Filters(policy, groups, i + 1)|]
         == FilterOf(policy, groups[i])
    decreases n
  {
    if i < n - 1 {
      FiltersAt(policy, groups, i, n - 1);
    }
  }

  lemma PackedSize(all: Bytes, xs: seq<uint32>)
    ensures |Packed(all, xs)| == |all| + 4 * |xs| + 5 && Packed(all, xs)[..|all|] == all
    ensures Packed(all, xs)[|Packed(all, xs)| - 1] == FILTER_BASE_LG
  {
  }

  lemma PackedAt(all: Bytes, xs: seq<uint32>, i: nat)
    requires |all| < 0x1_0000_0000 && i <= |xs|
    ensures |all| + 4 * i + 4 <= |Packed(all, xs)|
    ensures DecodeFixed32(Packed(all, xs)[|all| + 4 * i..]) == if i < |xs| then xs[i] else |all|
  {
    PackedSize(all, xs);
    FixedAt(all, xs + [|all|], i, [FILTER_BASE_LG]);
  }

  lemma PackedOpens(policy: FilterPolicy, all: Bytes, xs: seq<uint32>)
    requires |all| < 0x1_0000_0000
    ensures OpenFilters(policy, Packed(all, xs)) == FilterBlockReader(policy, Packed(all, xs), |all|, |xs|, FILTER_BASE_LG)
  {
    PackedSize(all, xs);
    PackedAt(all, xs, |xs|);
  }

  lemma ConsultsPacked(policy: FilterPolicy, all: Bytes, xs: seq<uint32>, i: nat, key: Bytes, start: nat, limit: nat)
    requires |all| < 0x1_0000_0000 && i < |xs| && start == xs[i]
    requires limit == (if i + 1 < |xs| then xs[i + 1] else |all|) && start <= limit <= |all|
    ensures OpenFilters(policy, Packed(all, xs)).Consult(i, key) == policy.mayMatch(key, all[start..limit])
  {
    PackedOpens(policy, all, xs);
    PackedAt(all, xs, i);
    PackedAt(all, xs, i + 1);
    PackedSize(all, xs);
    assert Packed(all, xs)[start..limit] == Packed(all, xs)[..|all|][start..limit];
  }

  lemma ShiftBy4(x: nat, n: nat)
    requires n >= 4
    ensures ShiftRight(x, n) == ShiftRight(x / 16, n - 4)
  {
    assert ShiftRight(x, n) == ShiftRight(x / 2, n - 1);
    assert ShiftRight(x / 2, n - 1) == ShiftRight(x / 4, n - 2);
    assert ShiftRight(x / 4, n - 2) == ShiftRight(x / 8, n - 3);
    assert ShiftRight(x / 8, n - 3) == ShiftRight(x / 16, n - 4);
  }

  // The builder divides, the reader shifts.
  lemma ShiftDivides(x: nat)
    ensures ShiftRight(x, FILTER_BASE_LG) == x / FILTER_BASE
  {
    Quotients(x);
    ShiftBy4(x, 11);
    ShiftBy4(x / 16, 7);
    ShiftBy3(x / 256);
  }

  lemma ShiftBy3(y: nat)
    ensures ShiftRight(y, 3) == y / 8
  {
    assert ShiftRight(y, 3) == ShiftRight(y / 2, 2) == ShiftRight(y / 4, 1) == ShiftRight(y / 8, 0);
  }

  lemma Quotients(x: nat)
    ensures x / 16 / 16 == x / 256 && x / 256 / 8 == x / 2048
  {
  }

  lemma OffsetsOfFilter(policy: FilterPolicy, groups: seq<seq<Bytes>>, n: nat, i: nat)
    requires i < n <= |groups| && |Filters(policy, groups, n)| < 0x1_0000_0000
    ensures Offsets(policy, groups, n)[i] == |Filters(policy, groups, i)|
  {
    FiltersAt(policy, groups, i, n);
    OffsetsAt(policy, groups, n, i);
  }

  lemma FilterBounds(made: FilterPolicy, groups: seq<seq<Bytes>>, n: nat, i: nat) returns (start: nat, limit: nat)
    requires i < n <= |groups| && |Filters(made, groups, n)| < 0x1_0000_0000
    ensures start == Offsets(made, groups, n)[i] && start <= limit <= |Filters(made, groups, n)|
    ensures limit == if i + 1 < n then Offsets(made, groups, n)[i + 1] else |Filters(made, groups, n)|
    ensures Filters(made, groups, n)[start..limit] == FilterOf(made, groups[i])
  {
    start, limit := |Filters(made, groups, i)|, |Filters(made, groups, i + 1)|;
    FiltersAt(made, groups, i, n);
    OffsetsOfFilter(made, groups, n, i);
    if i + 1 < n {
      OffsetsOfFilter(made, groups, n, i + 1);
    }
  }

  lemma ConsultsItsFilter(made: FilterPolicy, used: FilterPolicy, groups: seq<seq<Bytes>>, n: nat, i: nat, key: Bytes,
      all: Bytes, xs: seq<uint32>)
    requires i < n <= |groups|
    requires |all| < 0x1_0000_0000 && all == Filters(made, groups, n) && xs == Offsets(made, groups, n)
    ensures OpenFilters(used, Packed(all, xs)).Consult(i, key) == used.mayMatch(key, FilterOf(made, groups[i]))
  {
    var start, limit := FilterBounds(made, groups, n, i);
    ConsultsPacked(used, all, xs, i, key, start, limit);
  }

  lemma LooksAtBase(reader: FilterBlockReader, blockOffset: nat, key: Bytes)
    requires reader.InRange() && reader.baseLg == FILTER_BASE_LG
    ensures reader.KeyMayMatch(blockOffset, key) == reader.Consult(blockOffset / FILTER_BASE, key)
  {
    ShiftDivides(blockOffset);
  }

  // Through the finished block, a lookup for a block that begins at this offset consults
  // exactly the filter of the keys that were added for that offset.
  lemma ReadsItsFilter(made: FilterPolicy, used: FilterPolicy, groups: seq<seq<Bytes>>, blockOffset: nat, key: Bytes, i: nat)
    requires |Filters(made, groups, |groups|)| < 0x1_0000_0000 && i == blockOffset / FILTER_BASE
    ensures OpenFilters(used, Contents(made, groups)).KeyMayMatch(blockOffset, key)
         == (i < |groups| ==> used.mayMatch(key, FilterOf(made, groups[i])))
  {
    var all, xs := Filters(made, groups, |groups|), Offsets(made, groups, |groups|);
    PackedOpens(used, all, xs);
    LooksAtBase(OpenFilters(used, Packed(all, xs)), blockOffset, key);
    if i < |groups| {
      ConsultsItsFilter(made, used, groups, |groups|, i, key, all, xs);
    }
  }

  // Whatever the contents: a lookup is turned away only by a filter that does not match, or by
  // an empty one; anything that makes no sense lets it through.
  lemma OnlyFiltersTurnAway(policy: FilterPolicy, contents: Bytes, blockOffset: nat, key: Bytes)
    ensures !OpenFilters(policy, contents).KeyMayMatch(blockOffset, key) ==>
              && |contents| >= 5
              && var last := DecodeFixed32(contents[|contents| - 5..]);
                 var at := last + 4 * ShiftRight(blockOffset, contents[|contents| - 1]);
                 && at + 9 <= |contents|
                 && var start, limit := DecodeFixed32(contents[at..]), DecodeFixed32(contents[at + 4..]);
                    start == limit || (start < limit <= last && !policy.mayMatch(key, contents[start..limit]))
  {
  }
}
