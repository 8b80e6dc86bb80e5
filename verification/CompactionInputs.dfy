/** Choosing what to compact: GetOverlappingInputs, AddBoundaryInputs, SetupOtherInputs,
  PickCompaction and CompactRange (db/version_set.cc). */
module CompactionInputs {
  import opened Wrappers
  import opened Keys
  import opened VersionModel

  // ---------- files overlapping a range ----------

  // The files among the first `n` that meet [begin, end], in level order.
  function SelectFirst(files: Level, n: nat, begin: Option<UserKey>, end: Option<UserKey>): (r: Level)
    requires n <= |files|
    ensures |r| <= n
  {
    if n == 0 then [] else
      SelectFirst(files, n - 1, begin, end) + (if Overlaps(files[n - 1], begin, end) then [files[n - 1]] else [])
  }

  function Select(files: Level, begin: Option<UserKey>, end: Option<UserKey>): Level {
    SelectFirst(files, |files|, begin, end)
  }

  lemma {:induction false} SelectedFirst(files: Level, n: nat, begin: Option<UserKey>, end: Option<UserKey>)
    requires n <= |files|
    ensures forall f :: f in SelectFirst(files, n, begin, end)
                        <==> exists i :: 0 <= i < n && files[i] == f && Overlaps(f, begin, end)
  {
    if n > 0 {
      SelectedFirst(files, n - 1, begin, end);
    }
  }

  lemma Selected(files: Level, begin: Option<UserKey>, end: Option<UserKey>)
    ensures forall f :: f in Select(files, begin, end) <==> f in files && Overlaps(f, begin, end)
  {
    SelectedFirst(files, |files|, begin, end);
  }

  predicate RangeWithin(begin: Option<UserKey>, end: Option<UserKey>, wideBegin: Option<UserKey>, wideEnd: Option<UserKey>) {
    && (wideBegin.Some? ==> begin.Some? && wideBegin.value <= begin.value)
    && (wideEnd.Some? ==> end.Some? && end.value <= wideEnd.value)
  }

  // A file that meets the range does not stick out of it.
  ghost predicate Contained(f: FileMetaData, begin: Option<UserKey>, end: Option<UserKey>) {
    Overlaps(f, begin, end) ==>
      && (begin.Some? ==> begin.value <= f.smallest.user)
      && (end.Some? ==> f.largest.user <= end.value)
  }

  ghost predicate ClosedRange(files: Level, begin: Option<UserKey>, end: Option<UserKey>) {
    forall i :: 0 <= i < |files| ==> Contained(files[i], begin, end)
  }

  // The number of range ends that could still widen [begin, end].
  function Outside(files: Level, begin: Option<UserKey>, end: Option<UserKey>): nat {
    if files == [] then 0 else
      Outside(files[1..], begin, end)
      + (if begin.Some? && files[0].smallest.user < begin.value then 1 else 0)
      + (if end.Some? && files[0].largest.user > end.value then 1 else 0)
  }

  lemma {:induction false} OutsideShrinks(files: Level, f: FileMetaData, begin: Option<UserKey>, end: Option<UserKey>,
                                          wideBegin: Option<UserKey>, wideEnd: Option<UserKey>)
    requires RangeWithin(begin, end, wideBegin, wideEnd) && wideBegin.Some? == begin.Some? && wideEnd.Some? == end.Some?
    ensures Outside(files, wideBegin, wideEnd) <= Outside(files, begin, end)
    ensures f in files && begin.Some? && wideBegin.value <= f.smallest.user < begin.value
            ==> Outside(files, wideBegin, wideEnd) < Outside(files, begin, end)
    ensures f in files && end.Some? && wideEnd.value >= f.largest.user > end.value
            ==> Outside(files, wideBegin, wideEnd) < Outside(files, begin, end)
  {
    if files != [] {
      OutsideShrinks(files[1..], f, begin, end, wideBegin, wideEnd);
    }
  }

  // Every closed range that holds the requested one holds [userBegin, userEnd] as well.
  ghost predicate Least(files: Level, begin: Option<UserKey>, end: Option<UserKey>,
                        userBegin: Option<UserKey>, userEnd: Option<UserKey>) {
    forall b, e :: RangeWithin(begin, end, b, e) && ClosedRange(files, b, e) ==> RangeWithin(userBegin, userEnd, b, e)
  }

  lemma LeastGrows(files: Level, f: FileMetaData, begin: Option<UserKey>, end: Option<UserKey>,
                   userBegin: Option<UserKey>, userEnd: Option<UserKey>)
    requires Least(files, begin, end, userBegin, userEnd)
    requires f in files && Overlaps(f, userBegin, userEnd)
    ensures userBegin.Some? && f.smallest.user < userBegin.value ==> Least(files, begin, end, Some(f.smallest.user), userEnd)
    ensures userEnd.Some? && f.largest.user > userEnd.value ==> Least(files, begin, end, userBegin, Some(f.largest.user))
  {
    forall b, e | RangeWithin(begin, end, b, e) && ClosedRange(files, b, e)
      ensures userBegin.Some? && f.smallest.user < userBegin.value ==> RangeWithin(Some(f.smallest.user), userEnd, b, e)
      ensures userEnd.Some? && f.largest.user > userEnd.value ==> RangeWithin(userBegin, Some(f.largest.user), b, e)
    {
      assert Overlaps(f, b, e);
    }
  }

  // The files of a level that meet the range; on level 0, the least closed range that holds it.
  ghost predicate Overlapping(files: Level, level: nat, begin: Option<UserKey>, end: Option<UserKey>, inputs: Level) {
    exists b, e :: OverlappingIn(files, level, begin, end, inputs, b, e)
  }

  ghost predicate OverlappingIn(files: Level, level: nat, begin: Option<UserKey>, end: Option<UserKey>, inputs: Level,
      b: Option<UserKey>, e: Option<UserKey>) {
    && inputs == Select(files, b, e) && RangeWithin(begin, end, b, e)
    && if level > 0 then b == begin && e == end else ClosedRange(files, b, e) && Least(files, begin, end, b, e)
  }

  // On level 0 the range grows until it is closed; the ghost results are the final range.
  method GetOverlappingInputs(files: Level, level: nat, begin: Option<UserKey>, end: Option<UserKey>)
    returns (inputs: Level, ghost rangeBegin: Option<UserKey>, ghost rangeEnd: Option<UserKey>)
    ensures inputs == Select(files, rangeBegin, rangeEnd)
    ensures RangeWithin(begin, end, rangeBegin, rangeEnd)
    ensures level > 0 ==> rangeBegin == begin && rangeEnd == end && inputs == Select(files, begin, end)
    ensures level == 0 ==> ClosedRange(files, rangeBegin, rangeEnd)
    ensures level == 0 ==> Least(files, begin, end, rangeBegin, rangeEnd)
    ensures OverlappingIn(files, level, begin, end, inputs, rangeBegin, rangeEnd)
  {
    inputs := [];
    var userBegin, userEnd := begin, end;
    var i := 0;
    while i < |files|
      invariant 0 <= i <= |files|
      invariant userBegin.Some? == begin.Some? && userEnd.Some? == end.Some?
      invariant RangeWithin(begin, end, userBegin, userEnd)
      invariant level > 0 ==> userBegin == begin && userEnd == end
      invariant inputs == SelectFirst(files, i, userBegin, userEnd)
      invariant level == 0 ==> forall k :: 0 <= k < i ==> Contained(files[k], userBegin, userEnd)
      invariant Least(files, begin, end, userBegin, userEnd)
      decreases Outside(files, userBegin, userEnd), |files| - i
    {
      var f := files[i];
      i := i + 1;
      if userBegin.Some? && f.largest.user < userBegin.value {
        // "f" is completely before the range
      } else if userEnd.Some? && f.smallest.user > userEnd.value {
        // "f" is completely after the range
      } else {
        inputs := inputs + [f];
        if level == 0 {
          LeastGrows(files, f, begin, end, userBegin, userEnd);
          if userBegin.Some? && f.smallest.user < userBegin.value {
            OutsideShrinks(files, f, userBegin, userEnd, Some(f.smallest.user), userEnd);
            userBegin := Some(f.smallest.user);
            inputs := [];
            i := 0;
          } else if userEnd.Some? && f.largest.user > userEnd.value {
            OutsideShrinks(files, f, userBegin, userEnd, userBegin, Some(f.largest.user));
            userEnd := Some(f.largest.user);
            inputs := [];
            i := 0;
          }
        }
      }
    }
    rangeBegin, rangeEnd := userBegin, userEnd;
  }

  lemma {:induction false} SelectMonotone(files: Level, n: nat, begin: Option<UserKey>, end: Option<UserKey>,
                                          wideBegin: Option<UserKey>, wideEnd: Option<UserKey>)
    requires n <= |files| && RangeWithin(begin, end, wideBegin, wideEnd)
    ensures var few, many := SelectFirst(files, n, begin, end), SelectFirst(files, n, wideBegin, wideEnd);
            |few| <= |many| && (|few| == |many| ==> few == many)
  {
    if n > 0 {
      SelectMonotone(files, n - 1, begin, end, wideBegin, wideEnd);
    }
  }

  lemma UserKeysAscend(files: Level, i: nat, j: nat)
    requires AllWellFormed(files) && SortedDisjoint(files)
    requires i <= j < |files|
    ensures files[i].smallest.user <= files[j].smallest.user
    ensures files[i].largest.user <= files[j].largest.user
    ensures i < j ==> files[i].largest.user <= files[j].smallest.user
  {
    FileRange(files[i]);
    FileRange(files[j]);
  }

  ghost predicate OverlapRun(files: Level, n: nat, lo: nat, hi: nat, begin: Option<UserKey>, end: Option<UserKey>)
    requires n <= |files|
  {
    && lo <= hi <= n
    && (forall i :: lo <= i < hi ==> Overlaps(files[i], begin, end))
    && (forall i :: 0 <= i < n && !(lo <= i < hi) ==> !Overlaps(files[i], begin, end))
  }

  lemma BetweenOverlapping(files: Level, i: nat, j: nat, k: nat, begin: Option<UserKey>, end: Option<UserKey>)
    requires AllWellFormed(files) && SortedDisjoint(files)
    requires i <= j <= k < |files| && Overlaps(files[i], begin, end) && Overlaps(files[k], begin, end)
    ensures Overlaps(files[j], begin, end)
  {
    UserKeysAscend(files, i, j);
    UserKeysAscend(files, j, k);
  }

  lemma {:induction false} FindOverlapRun(files: Level, n: nat, begin: Option<UserKey>, end: Option<UserKey>)
    returns (lo: nat, hi: nat)
    requires AllWellFormed(files) && SortedDisjoint(files) && n <= |files|
    ensures OverlapRun(files, n, lo, hi, begin, end)
  {
    if n == 0 {
      lo, hi := 0, 0;
    } else {
      lo, hi := FindOverlapRun(files, n - 1, begin, end);
      if Overlaps(files[n - 1], begin, end) {
        if lo == hi {
          lo, hi := n - 1, n;
        } else {
          if hi < n - 1 {
            BetweenOverlapping(files, hi - 1, hi, n - 1, begin, end);
          }
          hi := n;
        }
      }
    }
  }

  lemma {:induction false} SelectOfRun(files: Level, n: nat, lo: nat, hi: nat, begin: Option<UserKey>, end: Option<UserKey>)
    requires n <= |files| && OverlapRun(files, n, lo, hi, begin, end)
    ensures SelectFirst(files, n, begin, end) == files[lo..hi]
  {
    if n > 0 {
      if Overlaps(files[n - 1], begin, end) {
        SelectOfRun(files, n - 1, lo, hi - 1, begin, end);
      } else if hi == n {
        SelectOfRun(files, n - 1, n - 1, n - 1, begin, end);
      } else {
        SelectOfRun(files, n - 1, lo, hi, begin, end);
      }
    }
  }

  // Above level 0 the files that meet a range are neighbours.
  lemma SelectIsSlice(files: Level, begin: Option<UserKey>, end: Option<UserKey>) returns (lo: nat, hi: nat)
    requires AllWellFormed(files) && SortedDisjoint(files)
    ensures OverlapRun(files, |files|, lo, hi, begin, end)
    ensures Select(files, begin, end) == files[lo..hi]
  {
    lo, hi := FindOverlapRun(files, |files|, begin, end);
    SelectOfRun(files, |files|, lo, hi, begin, end);
  }

  // ---------- key ranges ----------

  ghost predicate IsLargestKey(files: Level, k: InternalKey) {
    (exists f :: f in files && f.largest == k) && forall f :: f in files ==> !Less(k, f.largest)
  }

  ghost predicate IsSmallestKey(files: Level, k: InternalKey) {
    (exists f :: f in files && f.smallest == k) && forall f :: f in files ==> !Less(f.smallest, k)
  }

  method GetRange(inputs: Level) returns (smallest: InternalKey, largest: InternalKey)
    requires inputs != []
    ensures IsSmallestKey(inputs, smallest) && IsLargestKey(inputs, largest)
  {
    smallest, largest := inputs[0].smallest, inputs[0].largest;
    for i := 1 to |inputs|
      invariant IsSmallestKey(inputs[..i], smallest) && IsLargestKey(inputs[..i], largest)
    {
      var f := inputs[i];
      assert forall g :: g in inputs[..i + 1] <==> g in inputs[..i] || g == f;
      if Less(f.smallest, smallest) {
        smallest := f.smallest;
      }
      if Less(largest, f.largest) {
        largest := f.largest;
      }
    }
    assert inputs[..|inputs|] == inputs;
  }

  method FindLargestKey(files: Level) returns (largest: Option<InternalKey>)
    ensures files == [] <==> largest.None?
    ensures largest.Some? ==> IsLargestKey(files, largest.value)
  {
    if files == [] {
      return None;
    }
    var k := files[0].largest;
    for i := 1 to |files|
      invariant IsLargestKey(files[..i], k)
    {
      var f := files[i];
      assert forall g :: g in files[..i + 1] <==> g in files[..i] || g == f;
      if Less(k, f.largest) {
        k := f.largest;
      }
    }
    assert files[..|files|] == files;
    largest := Some(k);
  }

  // ---------- boundary files ----------

  // `f` starts after `largest` but with the same user key.
  predicate IsBoundary(f: FileMetaData, largest: InternalKey) {
    Less(largest, f.smallest) && f.smallest.user == largest.user
  }

  method FindSmallestBoundaryFile(levelFiles: Level, largest: InternalKey) returns (found: Option<FileMetaData>)
    ensures found.None? <==> forall f :: f in levelFiles ==> !IsBoundary(f, largest)
    ensures found.Some? ==> && found.value in levelFiles && IsBoundary(found.value, largest)
                            && forall f :: f in levelFiles && IsBoundary(f, largest) ==> !Less(f.smallest, found.value.smallest)
  {
    found := None;
    for i := 0 to |levelFiles|
      invariant found.None? <==> forall k :: 0 <= k < i ==> !IsBoundary(levelFiles[k], largest)
      invariant found.Some? ==> && found.value in levelFiles && IsBoundary(found.value, largest)
                                && forall k :: 0 <= k < i && IsBoundary(levelFiles[k], largest) ==>
                                                 !Less(levelFiles[k].smallest, found.value.smallest)
    {
      var f := levelFiles[i];
      if Less(largest, f.smallest) && f.smallest.user == largest.user {
        if found.None? || Less(f.smallest, found.value.smallest) {
          found := Some(f);
        }
      }
    }
  }

  function StartingAfter(files: Level, k: InternalKey): nat {
    if files == [] then 0 else StartingAfter(files[1..], k) + (if Less(k, files[0].smallest) then 1 else 0)
  }

  lemma {:induction false} StartingAfterShrinks(files: Level, f: FileMetaData, k: InternalKey)
    requires WellFormed(f)
    requires Less(k, f.smallest)
    ensures StartingAfter(files, f.largest) <= StartingAfter(files, k)
    ensures f in files ==> StartingAfter(files, f.largest) < StartingAfter(files, k)
  {
    FileRange(f);
    if files != [] {
      StartingAfterShrinks(files[1..], f, k);
    }
  }

  // No file of the level starts after the chosen files with the user key they end in.
  ghost predicate BoundaryClosed(levelFiles: Level, chosen: Level) {
    forall k :: IsLargestKey(chosen, k) ==> forall f :: f in levelFiles ==> !IsBoundary(f, k)
  }

  ghost predicate SmallestBoundary(levelFiles: Level, chosen: Level, f: FileMetaData) {
    f in levelFiles
    && exists k :: IsLargestKey(chosen, k) && IsBoundary(f, k)
                   && forall g :: g in levelFiles && IsBoundary(g, k) ==> !Less(g.smallest, f.smallest)
  }

  // `chosen` grew out of `base` by adding the smallest boundary file again and again.
  ghost predicate BoundaryChain(levelFiles: Level, base: Level, chosen: Level) {
    var n := |chosen| - 1;
    chosen == base
    || (n >= |base| && BoundaryChain(levelFiles, base, chosen[..n]) && SmallestBoundary(levelFiles, chosen[..n], chosen[n]))
  }

  method AddBoundaryInputs(levelFiles: Level, compactionFiles: Level) returns (chosen: Level)
    requires AllWellFormed(levelFiles)
    ensures BoundaryChain(levelFiles, compactionFiles, chosen)
    ensures compactionFiles != [] ==> BoundaryClosed(levelFiles, chosen)
  {
    chosen := compactionFiles;
    var first := FindLargestKey(compactionFiles);
    if first.None? {
      return;
    }
    var largest := first.value;
    var continueSearching := true;
    while continueSearching
      invariant IsLargestKey(chosen, largest)
      invariant BoundaryChain(levelFiles, compactionFiles, chosen)
      invariant |chosen| >= |compactionFiles|
      invariant !continueSearching ==> forall f :: f in levelFiles ==> !IsBoundary(f, largest)
      decreases continueSearching, StartingAfter(levelFiles, largest)
    {
      var found := FindSmallestBoundaryFile(levelFiles, largest);
      if found.Some? {
        var f := found.value;
        StartingAfterShrinks(levelFiles, f, largest);
        assert SmallestBoundary(levelFiles, chosen, f);
        LargestKeyGrows(chosen, largest, f);
        assert (chosen + [f])[..|chosen|] == chosen;
        chosen := chosen + [f];
        largest := f.largest;
      } else {
        continueSearching := false;
      }
    }
    LargestKeyUnique(chosen, largest);
  }

  lemma LargestKeyGrows(chosen: Level, largest: InternalKey, f: FileMetaData)
    requires IsLargestKey(chosen, largest)
    requires WellFormed(f) && IsBoundary(f, largest)
    ensures IsLargestKey(chosen + [f], f.largest)
  {
    FileRange(f);
    assert f in chosen + [f];
    forall g | g in chosen + [f]
      ensures !Less(f.largest, g.largest)
    {
      if g in chosen {
        assert !Less(largest, g.largest);
      }
    }
  }

  // A file set without boundary files stays as it is.
  lemma ChainOfClosed(levelFiles: Level, base: Level, chosen: Level)
    requires BoundaryChain(levelFiles, base, chosen) && BoundaryClosed(levelFiles, base)
    ensures chosen == base
  {
    if chosen != base {
      ChainOfClosed(levelFiles, base, chosen[..|chosen| - 1]);
    }
  }

  lemma NextOfSlice(levelFiles: Level, lo: nat, hi: nat, f: FileMetaData)
    requires AllWellFormed(levelFiles) && SortedDisjoint(levelFiles)
    requires lo < hi <= |levelFiles| && SmallestBoundary(levelFiles, levelFiles[lo..hi], f)
    ensures hi < |levelFiles| && levelFiles[lo..hi] + [f] == levelFiles[lo..hi + 1]
  {
    var k :| IsLargestKey(levelFiles[lo..hi], k) && IsBoundary(f, k)
             && forall g :: g in levelFiles && IsBoundary(g, k) ==> !Less(g.smallest, f.smallest);
    BoundaryIsNeighbour(levelFiles, lo, hi, k, f);
  }

  // A run of neighbours stays a run of neighbours.
  lemma {:induction false} ChainOfSlice(levelFiles: Level, lo: nat, hi: nat, chosen: Level) returns (to: nat)
    requires AllWellFormed(levelFiles) && SortedDisjoint(levelFiles)
    requires lo < hi <= |levelFiles| && BoundaryChain(levelFiles, levelFiles[lo..hi], chosen)
    ensures hi <= to <= |levelFiles| && chosen == levelFiles[lo..to]
    decreases |chosen|
  {
    if chosen == levelFiles[lo..hi] {
      to := hi;
    } else {
      var n := |chosen| - 1;
      var end := ChainOfSlice(levelFiles, lo, hi, chosen[..n]);
      NextOfSlice(levelFiles, lo, end, chosen[n]);
      LongerSlice(levelFiles, lo, end, chosen, n);
      to := end + 1;
    }
  }

  lemma LongerSlice(files: Level, lo: nat, end: nat, chosen: Level, n: nat)
    requires lo <= end < |files| && |chosen| == n + 1 && chosen[..n] == files[lo..end] && chosen[n] == files[end]
    ensures chosen == files[lo..end + 1]
  {
    assert chosen == chosen[..n] + [chosen[n]];
  }

  lemma LargestKeyUnique(files: Level, k: InternalKey)
    requires IsLargestKey(files, k)
    ensures forall o :: IsLargestKey(files, o) ==> o == k
  {
    forall o | IsLargestKey(files, o)
      ensures o == k
    {
      assert !Less(o, k) && !Less(k, o);
    }
  }

  // The largest key of a run of neighbours is that of its last file ...
  lemma LargestOfSlice(files: Level, lo: nat, hi: nat, largest: InternalKey)
    requires AllWellFormed(files) && SortedDisjoint(files)
    requires lo < hi <= |files| && IsLargestKey(files[lo..hi], largest)
    ensures largest == files[hi - 1].largest
  {
    var slice := files[lo..hi];
    var f :| f in slice && f.largest == largest;
    var i :| 0 <= i < |slice| && slice[i] == f;
    assert slice[hi - lo - 1] in slice;
    if i < hi - lo - 1 {
      FileRange(files[hi - 1]);
      assert false;
    }
  }

  // ... and the smallest boundary file is the next one of the level.
  lemma BoundaryIsNeighbour(files: Level, lo: nat, hi: nat, largest: InternalKey, f: FileMetaData)
    requires AllWellFormed(files) && SortedDisjoint(files)
    requires lo < hi <= |files| && IsLargestKey(files[lo..hi], largest)
    requires f in files && IsBoundary(f, largest)
    requires forall g :: g in files && IsBoundary(g, largest) ==> !Less(g.smallest, f.smallest)
    ensures hi < |files| && f == files[hi]
    ensures files[lo..hi] + [f] == files[lo..hi + 1]
  {
    LargestOfSlice(files, lo, hi, largest);
    var i :| 0 <= i < |files| && files[i] == f;
    if i < hi {
      FileRange(files[i]);
      FileRange(files[hi - 1]);
      assert false;
    }
    if hi < i {
      NearerBoundary(files, hi, i, largest);
    }
  }

  // Between a run and a boundary file further on, the next file is a boundary file, too.
  lemma NearerBoundary(files: Level, hi: nat, i: nat, largest: InternalKey)
    requires AllWellFormed(files) && SortedDisjoint(files)
    requires 0 < hi < i < |files| && largest == files[hi - 1].largest && IsBoundary(files[i], largest)
    ensures IsBoundary(files[hi], largest) && Less(files[hi].smallest, files[i].smallest)
  {
    FileRange(files[hi]);
    assert Less(files[hi - 1].largest, files[hi].smallest);
    assert Less(files[hi].largest, files[i].smallest);
  }
}
