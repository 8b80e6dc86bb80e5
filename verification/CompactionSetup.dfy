/** VersionSet::SetupOtherInputs, PickCompaction and CompactRange (db/version_set.cc): the
  chosen inputs leave nothing older behind on their own level, and take in every file of
  the next level that meets their key range. */
module CompactionSetup {
  import opened Wrappers
  import opened Keys
  import opened Reads
  import opened VersionModel
  import opened CompactionInputs

  // A file left behind on the level is newer than every chosen file, on shared user keys.
  ghost predicate Detached(files: Level, chosen: Level) {
    forall f, g {:trigger OlderFile(g, f)} :: f in files && f !in chosen && g in chosen ==> OlderFile(g, f)
  }

  // What the pickers hand to SetupOtherInputs: neighbours above level 0, and on level 0
  // all the files of a closed range.
  ghost predicate Pickable(files: Level, level: nat, picked: Level) {
    && picked != []
    && (level > 0 ==> exists lo, hi :: 0 <= lo < hi <= |files| && picked == files[lo..hi])
    && (level == 0 ==> exists b, e :: ClosedRange(files, b, e) && picked == Select(files, b, e))
  }

  ghost predicate LevelInv(files: Level, level: nat) {
    && AllWellFormed(files)
    && UniqueSequences(LevelContents(files))
    && (level > 0 ==> SortedDisjoint(files))
  }

  lemma EarlierIsNewer(f: FileMetaData, g: FileMetaData, all: set<Entry>)
    requires WellFormed(f) && WellFormed(g) && Less(f.largest, g.smallest)
    requires UniqueSequences(all)
    requires (forall e :: e in f.entries ==> e in all) && (forall e :: e in g.entries ==> e in all)
    ensures OlderFile(g, f)
  {
    forall a, b | a in g.entries && b in f.entries && a.ikey.user == b.ikey.user
      ensures a.ikey.sequence < b.ikey.sequence
    {
      EntryInRange(g, a);
      EntryInRange(f, b);
      assert Less(b.ikey, a.ikey);
    }
  }

  lemma SliceIsDetached(files: Level, level: nat, lo: nat, hi: nat)
    requires level > 0 && LevelInv(files, level)
    requires lo < hi <= |files| && BoundaryClosed(files, files[lo..hi])
    ensures Detached(files, files[lo..hi])
  {
    var all := LevelContents(files);
    var largest := files[hi - 1].largest;
    assert IsLargestKey(files[lo..hi], largest) by {
      assert files[lo..hi][hi - 1 - lo] == files[hi - 1];
      forall f | f in files[lo..hi]
        ensures !Less(largest, f.largest)
      {
        var i :| lo <= i < hi && files[i] == f;
        FileRange(files[hi - 1]);
      }
    }
    forall i, j | 0 <= j < |files| && lo <= i < hi && files[j] !in files[lo..hi]
      ensures OlderFile(files[i], files[j])
    {
      if j < lo {
        EarlierIsNewer(files[j], files[i], all);
      } else {
        assert j >= hi;
        NoSharedUserKey(files, i, hi - 1, j);
      }
    }
  }

  // Past a closed boundary no user key of the chosen files comes back.
  lemma NoSharedUserKey(files: Level, i: nat, last: nat, j: nat)
    requires AllWellFormed(files) && SortedDisjoint(files)
    requires i <= last < j < |files| && !IsBoundary(files[j], files[last].largest)
    ensures files[i].largest.user < files[j].smallest.user
    ensures OlderFile(files[i], files[j])
  {
    UserKeysAscend(files, i, last);
    UserKeysAscend(files, last, j);
    forall a, b | a in files[i].entries && b in files[j].entries
      ensures a.ikey.user != b.ikey.user
    {
      EntryInRange(files[i], a);
      EntryInRange(files[j], b);
    }
  }

  lemma ClosedIsBoundaryClosed(files: Level, begin: Option<UserKey>, end: Option<UserKey>)
    requires AllWellFormed(files) && ClosedRange(files, begin, end)
    ensures BoundaryClosed(files, Select(files, begin, end))
  {
    var chosen := Select(files, begin, end);
    Selected(files, begin, end);
    forall k, f | IsLargestKey(chosen, k) && f in files
      ensures !IsBoundary(f, k)
    {
      FileRange(f);
      var g :| g in chosen && g.largest == k;
      var i :| 0 <= i < |files| && files[i] == g;
      assert Contained(files[i], begin, end);
      assert IsBoundary(f, k) ==> Overlaps(f, begin, end);
    }
  }

  lemma ClosedIsDetached(files: Level, begin: Option<UserKey>, end: Option<UserKey>)
    requires AllWellFormed(files) && ClosedRange(files, begin, end)
    ensures Detached(files, Select(files, begin, end))
  {
    var chosen := Select(files, begin, end);
    Selected(files, begin, end);
    forall f, g | f in files && f !in chosen && g in chosen
      ensures OlderFile(g, f)
    {
      var i :| 0 <= i < |files| && files[i] == g;
      assert Contained(files[i], begin, end);
      forall a, b | a in g.entries && b in f.entries
        ensures a.ikey.user != b.ikey.user
      {
        EntryInRange(g, a);
        EntryInRange(f, b);
      }
    }
  }

  lemma SliceMembers(files: Level, lo: nat, hi: nat, to: nat)
    requires lo < hi <= to <= |files|
    ensures forall f :: f in files[lo..hi] ==> f in files[lo..to]
    ensures forall f :: f in files[lo..to] ==> f in files
    ensures files[lo..to] != []
  {
    assert files[lo..hi] == files[lo..to][..hi - lo];
  }

  // Adding the boundary files makes any pick detached.
  lemma PickIsDetached(files: Level, level: nat, picked: Level, chosen: Level)
    requires LevelInv(files, level) && Pickable(files, level, picked)
    requires BoundaryChain(files, picked, chosen) && BoundaryClosed(files, chosen)
    ensures Detached(files, chosen)
    ensures forall f :: f in picked ==> f in chosen
    ensures forall f :: f in chosen ==> f in files
    ensures chosen != []
  {
    if level > 0 {
      var lo, hi :| 0 <= lo < hi <= |files| && picked == files[lo..hi];
      var to := ChainOfSlice(files, lo, hi, chosen);
      SliceIsDetached(files, level, lo, to);
      SliceMembers(files, lo, hi, to);
    } else {
      var b, e :| ClosedRange(files, b, e) && picked == Select(files, b, e);
      ClosedIsBoundaryClosed(files, b, e);
      ChainOfClosed(files, picked, chosen);
      ClosedIsDetached(files, b, e);
      Selected(files, b, e);
    }
  }

  ghost predicate InKeyRange(files: Level, smallest: InternalKey, largest: InternalKey) {
    IsSmallestKey(files, smallest) && IsLargestKey(files, largest)
  }

  lemma KeyRangeBounds(files: Level, smallest: InternalKey, largest: InternalKey)
    requires InKeyRange(files, smallest, largest)
    ensures forall f :: f in files ==> smallest.user <= f.smallest.user && f.largest.user <= largest.user
  {
  }

  function TotalFileSize(files: Level): nat {
    if files == [] then 0 else files[0].size + TotalFileSize(files[1..])
  }

  // The files of level+1 in a compaction are exactly those that meet the range of inputs0.
  ghost predicate NextLevelInputs(next: Level, inputs0: Level, inputs1: Level) {
    exists s, l :: InKeyRange(inputs0, s, l) && inputs1 == Select(next, Some(s.user), Some(l.user))
  }

  ghost predicate ChosenInputs(v: Version, level: nat, inputs0: Level, inputs1: Level)
    requires level < 6
  {
    && inputs0 != []
    && (forall f :: f in inputs0 ==> f in v[level])
    && Detached(v[level], inputs0)
    && NextLevelInputs(v[level + 1], inputs0, inputs1)
  }

  lemma WiderRange(few: Level, many: Level, s: InternalKey, l: InternalKey, ws: InternalKey, wl: InternalKey)
    requires InKeyRange(few, s, l) && InKeyRange(many, ws, wl)
    requires forall f :: f in few ==> f in many
    ensures RangeWithin(Some(s.user), Some(l.user), Some(ws.user), Some(wl.user))
  {
    KeyRangeBounds(many, ws, wl);
  }

  // How a compaction came about: the files picked, these with their boundary files, the wider
  // choice that was considered, and what was taken.
  datatype Plan = Plan(picked: Level, unexpanded: Level, wider: Level, inputs0: Level, inputs1: Level, grandparents: Level)

  // All files of the level that meet the range of both inputs, with their boundary files.
  ghost predicate Widened(files: Level, level: nat, inputs0: Level, inputs1: Level, wider: Level) {
    exists s, l, base ::
      && InKeyRange(inputs0 + inputs1, s, l) && Overlapping(files, level, Some(s.user), Some(l.user), base)
      && BoundaryChain(files, base, wider) && BoundaryClosed(files, wider)
  }

  // The wider choice is taken when it has more files, is not too large, and meets the same
  // files of the next level.
  ghost predicate Grows(next: Level, unexpanded: Level, wider: Level, inputs1: Level, expandedLimit: nat) {
    && inputs1 != [] && |wider| > |unexpanded|
    && TotalFileSize(inputs1) + TotalFileSize(wider) < expandedLimit
    && NextLevelInputs(next, wider, inputs1)
  }

  ghost predicate GrandparentsOf(v: Version, level: nat, inputs0: Level, inputs1: Level, grandparents: Level)
    requires level < 6
  {
    if level == 5 then grandparents == [] else NextLevelInputs(v[level + 2], inputs0 + inputs1, grandparents)
  }

  ghost predicate IsPlan(v: Version, level: nat, expandedLimit: nat, p: Plan)
    requires level < 6
  {
    && BoundaryChain(v[level], p.picked, p.unexpanded) && BoundaryClosed(v[level], p.unexpanded)
    && NextLevelInputs(v[level + 1], p.unexpanded, p.inputs1)
    && (p.inputs1 != [] ==> Widened(v[level], level, p.unexpanded, p.inputs1, p.wider))
    && p.inputs0 == (if Grows(v[level + 1], p.unexpanded, p.wider, p.inputs1, expandedLimit) then p.wider else p.unexpanded)
    && GrandparentsOf(v, level, p.inputs0, p.inputs1, p.grandparents)
  }

  // The same, to be looked into only where IsPlan is written.
  ghost predicate Planned(v: Version, level: nat, expandedLimit: nat, p: Plan)
    requires level < 6
  {
    forall x {:trigger IsPlan(v, level, x, p)} :: x == expandedLimit ==> IsPlan(v, level, x, p)
  }

  lemma ThisIsThePlan(v: Version, level: nat, expandedLimit: nat, p: Plan)
    requires level < 6
    requires BoundaryChain(v[level], p.picked, p.unexpanded) && BoundaryClosed(v[level], p.unexpanded)
    requires NextLevelInputs(v[level + 1], p.unexpanded, p.inputs1)
    requires p.inputs1 != [] ==> Widened(v[level], level, p.unexpanded, p.inputs1, p.wider)
    requires p.inputs0 == if Grows(v[level + 1], p.unexpanded, p.wider, p.inputs1, expandedLimit) then p.wider else p.unexpanded
    requires GrandparentsOf(v, level, p.inputs0, p.inputs1, p.grandparents)
    ensures Planned(v, level, expandedLimit, p)
  {
  }

  // The range of the files of a compaction is determined, and so are the files that meet it.
  lemma NextInputsUnique(next: Level, inputs0: Level, a: Level, b: Level)
    requires NextLevelInputs(next, inputs0, a) && NextLevelInputs(next, inputs0, b)
    ensures a == b
  {
    var s, l :| InKeyRange(inputs0, s, l) && a == Select(next, Some(s.user), Some(l.user));
    var t, m :| InKeyRange(inputs0, t, m) && b == Select(next, Some(t.user), Some(m.user));
    KeyRangeBounds(inputs0, s, l);
    KeyRangeBounds(inputs0, t, m);
  }

  // `unexpanded` is the pick with its boundary files. Growing the inputs of `level` beyond
  // it never changes which level+1 files are compacted.
  method SetupOtherInputs(v: Version, level: nat, picked: Level, expandedLimit: nat)
    returns (inputs0: Level, inputs1: Level, grandparents: Level, pointer: InternalKey, ghost plan: Plan)
    requires level < 6 && LevelInv(v[level], level) && AllWellFormed(v[level + 1])
    requires SortedDisjoint(v[level + 1])
    requires Pickable(v[level], level, picked)
    ensures ChosenInputs(v, level, inputs0, inputs1)
    ensures forall f :: f in picked ==> f in inputs0
    ensures IsLargestKey(inputs0, pointer)
    ensures plan.picked == picked && plan.inputs0 == inputs0 && plan.inputs1 == inputs1 && plan.grandparents == grandparents
    ensures Planned(v, level, expandedLimit, plan)
  {
    var unexpanded := AddBoundaryInputs(v[level], picked);
    PickIsDetached(v[level], level, picked, unexpanded);
    var smallest, largest := GetRange(unexpanded);
    ghost var rb, re;
    inputs1, rb, re := GetOverlappingInputs(v[level + 1], level + 1, Some(smallest.user), Some(largest.user));
    assert InKeyRange(unexpanded, smallest, largest);
    ghost var wider;
    inputs0, pointer, wider := TryToGrow(v, level, expandedLimit, unexpanded, inputs1, smallest, largest);
    grandparents := Grandparents(v, level, inputs0, inputs1);
    plan := Plan(picked, unexpanded, wider, inputs0, inputs1, grandparents);
    ThisIsThePlan(v, level, expandedLimit, plan);
  }

  method Grandparents(v: Version, level: nat, inputs0: Level, inputs1: Level) returns (grandparents: Level)
    requires level < 6 && inputs0 != []
    ensures GrandparentsOf(v, level, inputs0, inputs1, grandparents)
  {
    grandparents := [];
    if level + 2 < NUM_LEVELS {
      ghost var rb, re;
      var allStart, allLimit := GetRange(inputs0 + inputs1);
      grandparents, rb, re := GetOverlappingInputs(v[level + 2], level + 2, Some(allStart.user), Some(allLimit.user));
      assert InKeyRange(inputs0 + inputs1, allStart, allLimit);
    }
  }

  // The wider choice of inputs on the level.
  method WiderInputs(files: Level, level: nat, inputs0: Level, inputs1: Level) returns (wider: Level)
    requires LevelInv(files, level) && inputs0 != [] && forall f :: f in inputs0 ==> f in files
    ensures Widened(files, level, inputs0, inputs1, wider) && wider != [] && Detached(files, wider)
    ensures (forall f :: f in wider ==> f in files) && forall f :: f in inputs0 ==> f in wider
  {
    var allStart, allLimit := GetRange(inputs0 + inputs1);
    var base, xb, xe := GetOverlappingInputs(files, level, Some(allStart.user), Some(allLimit.user));
    ExpansionIsPickable(files, level, inputs0, inputs1, allStart, allLimit, xb, xe, base);
    wider := AddBoundaryInputs(files, base);
    PickIsDetached(files, level, base, wider);
    assert Overlapping(files, level, Some(allStart.user), Some(allLimit.user), base);
    assert InKeyRange(inputs0 + inputs1, allStart, allLimit);
  }

  // See if the number of inputs in `level` can grow without changing the files of level+1.
  method TryToGrow(v: Version, level: nat, expandedLimit: nat, start0: Level, inputs1: Level, smallest: InternalKey,
      start: InternalKey)
    returns (inputs0: Level, largest: InternalKey, ghost wider: Level)
    requires level < 6 && LevelInv(v[level], level)
    requires start0 != [] && (forall f :: f in start0 ==> f in v[level]) && Detached(v[level], start0)
    requires InKeyRange(start0, smallest, start) && inputs1 == Select(v[level + 1], Some(smallest.user), Some(start.user))
    ensures ChosenInputs(v, level, inputs0, inputs1) && IsLargestKey(inputs0, largest)
    ensures forall f :: f in start0 ==> f in inputs0
    ensures inputs1 != [] ==> Widened(v[level], level, start0, inputs1, wider)
    ensures inputs0 == if Grows(v[level + 1], start0, wider, inputs1, expandedLimit) then wider else start0
  {
    inputs0, largest, wider := start0, start, start0;
    if inputs1 != [] {
      var expanded0 := WiderInputs(v[level], level, inputs0, inputs1);
      wider := expanded0;
      if |expanded0| > |inputs0| && TotalFileSize(inputs1) + TotalFileSize(expanded0) < expandedLimit {
        var newStart, newLimit := GetRange(expanded0);
        ghost var rb, re;
        var expanded1;
        expanded1, rb, re := GetOverlappingInputs(v[level + 1], level + 1, Some(newStart.user), Some(newLimit.user));
        SameNextInputs(v[level + 1], inputs0, expanded0, inputs1, expanded1, smallest, start, newStart, newLimit);
        if |expanded1| == |inputs1| {
          largest := newLimit;
          inputs0 := expanded0;
        }
      }
    }
  }

  // The wider range meets the same files if it meets as many.
  lemma SameNextInputs(next: Level, inputs0: Level, wider: Level, inputs1: Level, expanded1: Level, s: InternalKey, l: InternalKey,
      ws: InternalKey, wl: InternalKey)
    requires InKeyRange(inputs0, s, l) && InKeyRange(wider, ws, wl) && forall f :: f in inputs0 ==> f in wider
    requires inputs1 == Select(next, Some(s.user), Some(l.user)) && expanded1 == Select(next, Some(ws.user), Some(wl.user))
    ensures NextLevelInputs(next, wider, inputs1) <==> |expanded1| == |inputs1|
    ensures |expanded1| == |inputs1| ==> expanded1 == inputs1
  {
    assert NextLevelInputs(next, wider, expanded1);
    WiderRange(inputs0, wider, s, l, ws, wl);
    SelectMonotone(next, |next|, Some(s.user), Some(l.user), Some(ws.user), Some(wl.user));
    if NextLevelInputs(next, wider, inputs1) {
      NextInputsUnique(next, wider, inputs1, expanded1);
    }
  }

  lemma ExpansionIsPickable(files: Level, level: nat, inputs0: Level, inputs1: Level,
                            allStart: InternalKey, allLimit: InternalKey,
                            b: Option<UserKey>, e: Option<UserKey>, expanded0: Level)
    requires LevelInv(files, level)
    requires inputs0 != [] && forall f :: f in inputs0 ==> f in files
    requires InKeyRange(inputs0 + inputs1, allStart, allLimit)
    requires RangeWithin(Some(allStart.user), Some(allLimit.user), b, e)
    requires expanded0 == Select(files, b, e)
    requires level == 0 ==> ClosedRange(files, b, e)
    ensures Pickable(files, level, expanded0)
    ensures forall f :: f in inputs0 ==> f in expanded0
  {
    Selected(files, b, e);
    KeyRangeBounds(inputs0 + inputs1, allStart, allLimit);
    forall f | f in inputs0
      ensures f in expanded0
    {
      FileRange(f);
      assert f in inputs0 + inputs1;
    }
    assert inputs0[0] in expanded0;
    if level > 0 {
      var lo, hi := SelectIsSlice(files, b, e);
    }
  }

  // The file that a compaction starts from: the one charged with too many seeks, or the first
  // past the compaction pointer, or the first of all.
  ghost predicate PickedBy(files: Level, compactPointer: Option<InternalKey>, seekFile: Option<FileMetaData>, i: nat) {
    && i < |files|
    && match seekFile
       case Some(f) => files[i] == f
       case None =>
         compactPointer.Some? ==>
           && (forall k :: 0 <= k < i ==> !Less(compactPointer.value, files[k].largest))
           && (Less(compactPointer.value, files[i].largest)
               || (i == 0 && forall k :: 0 <= k < |files| ==> !Less(compactPointer.value, files[k].largest)))
  }

  // The first file past the compaction pointer, wrapping around; or the file that was
  // charged with too many seeks.
  method PickFile(files: Level, compactPointer: Option<InternalKey>, seekFile: Option<FileMetaData>) returns (i: nat)
    requires files != []
    requires seekFile.Some? ==> seekFile.value in files
    ensures PickedBy(files, compactPointer, seekFile, i)
    ensures seekFile.None? && compactPointer.None? ==> i == 0
  {
    if seekFile.Some? {
      i :| 0 <= i < |files| && files[i] == seekFile.value;
      return;
    }
    i := 0;
    while i < |files|
      invariant 0 <= i <= |files|
      invariant compactPointer.None? ==> i == 0
      invariant compactPointer.Some? ==> forall k :: 0 <= k < i ==> !Less(compactPointer.value, files[k].largest)
    {
      if compactPointer.None? || Less(compactPointer.value, files[i].largest) {
        return;
      }
      i := i + 1;
    }
    i := 0;
  }

  lemma HullIsPickable(files: Level, f: FileMetaData, b: Option<UserKey>, e: Option<UserKey>)
    requires f in files && WellFormed(f) && ClosedRange(files, b, e)
    requires RangeWithin(Some(f.smallest.user), Some(f.largest.user), b, e)
    ensures Pickable(files, 0, Select(files, b, e)) && f in Select(files, b, e)
  {
    Selected(files, b, e);
    FileRange(f);
  }

  // On level 0 all files overlapping the picked one are taken along.
  ghost predicate StartsFrom(files: Level, level: nat, f: FileMetaData, picked: Level) {
    if level == 0 then Overlapping(files, 0, Some(f.smallest.user), Some(f.largest.user), picked) else picked == [f]
  }

  method PickCompaction(v: Version, level: nat, compactPointer: Option<InternalKey>, seekFile: Option<FileMetaData>,
                        expandedLimit: nat)
    returns (inputs0: Level, inputs1: Level, grandparents: Level, pointer: InternalKey, ghost pick: nat, ghost plan: Plan)
    requires level < 6 && LevelInv(v[level], level) && AllWellFormed(v[level + 1]) && SortedDisjoint(v[level + 1])
    requires v[level] != []
    requires seekFile.Some? ==> seekFile.value in v[level]
    ensures ChosenInputs(v, level, inputs0, inputs1)
    ensures PickedBy(v[level], compactPointer, seekFile, pick) && v[level][pick] in inputs0
    ensures StartsFrom(v[level], level, v[level][pick], plan.picked) && Planned(v, level, expandedLimit, plan)
    ensures plan.inputs0 == inputs0 && plan.inputs1 == inputs1 && plan.grandparents == grandparents
    ensures IsLargestKey(inputs0, pointer)
  {
    var files := v[level];
    var i := PickFile(files, compactPointer, seekFile);
    pick := i;
    var picked := PickAround(files, level, i);
    inputs0, inputs1, grandparents, pointer, plan := SetupOtherInputs(v, level, picked, expandedLimit);
  }

  method PickAround(files: Level, level: nat, i: nat) returns (picked: Level)
    requires LevelInv(files, level) && i < |files|
    ensures Pickable(files, level, picked) && files[i] in picked && StartsFrom(files, level, files[i], picked)
  {
    var f := files[i];
    picked := [f];
    if level == 0 {
      ghost var b, e;
      picked, b, e := GetOverlappingInputs(files, 0, Some(f.smallest.user), Some(f.largest.user));
      HullIsPickable(files, f, b, e);
    } else {
      assert picked == files[i..i + 1];
    }
  }

  // The first few inputs, up to the one that reaches the size limit.
  ghost predicate CutAt(inputs: Level, fileSizeLimit: nat, n: nat) {
    && 0 < n <= |inputs|
    && (forall k :: 0 < k < n ==> TotalFileSize(inputs[..k]) < fileSizeLimit)
    && (n < |inputs| ==> TotalFileSize(inputs[..n]) >= fileSizeLimit)
  }

  method CutShort(inputs: Level, fileSizeLimit: nat) returns (n: nat)
    requires inputs != []
    ensures CutAt(inputs, fileSizeLimit, n)
  {
    var total := 0;
    n := 0;
    while n < |inputs|
      invariant 0 <= n <= |inputs|
      invariant total == TotalFileSize(inputs[..n])
      invariant forall k :: 0 < k <= n ==> TotalFileSize(inputs[..k]) < fileSizeLimit
    {
      assert inputs[..n + 1] == inputs[..n] + [inputs[n]];
      TotalFileSizeAppend(inputs[..n], inputs[n]);
      total := total + inputs[n].size;
      n := n + 1;
      if total >= fileSizeLimit {
        return;
      }
    }
  }

  lemma {:induction false} TotalFileSizeAppend(files: Level, f: FileMetaData)
    ensures TotalFileSize(files + [f]) == TotalFileSize(files) + f.size
  {
    if files != [] {
      assert (files + [f])[1..] == files[1..] + [f];
      TotalFileSizeAppend(files[1..], f);
    }
  }

  lemma PrefixIsPickable(files: Level, level: nat, b: Option<UserKey>, e: Option<UserKey>, n: nat)
    requires level > 0 && AllWellFormed(files) && SortedDisjoint(files)
    requires 0 < n <= |Select(files, b, e)|
    ensures Pickable(files, level, Select(files, b, e)[..n])
  {
    var lo, hi := SelectIsSlice(files, b, e);
    assert files[lo..hi][..n] == files[lo..lo + n];
  }

  // CompactRange: a manual compaction, cut short above level 0 once the inputs are large.
  method CompactRange(v: Version, level: nat, begin: Option<UserKey>, end: Option<UserKey>,
                      fileSizeLimit: nat, expandedLimit: nat)
    returns (found: bool, inputs0: Level, inputs1: Level, grandparents: Level, pointer: InternalKey, ghost plan: Plan)
    requires level < 6 && LevelInv(v[level], level) && AllWellFormed(v[level + 1]) && SortedDisjoint(v[level + 1])
    ensures found ==> ChosenInputs(v, level, inputs0, inputs1) && Planned(v, level, expandedLimit, plan)
    ensures found ==> plan.inputs0 == inputs0 && plan.inputs1 == inputs1 && plan.grandparents == grandparents
    ensures found ==> RangePick(v[level], level, begin, end, fileSizeLimit, plan.picked)
    ensures !found ==> forall f :: f in v[level] ==> !Overlaps(f, begin, end)
  {
    ghost var b, e;
    var inputs;
    plan := Plan([], [], [], [], [], []);
    inputs, b, e := GetOverlappingInputs(v[level], level, begin, end);
    if inputs == [] {
      Selected(v[level], b, e);
      found, inputs0, inputs1, grandparents, pointer := false, [], [], [], InternalKey(0.0, 0, Deletion);
      return;
    }
    ghost var all := inputs;
    assert Overlapping(v[level], level, begin, end, all);
    ghost var cut := 0;
    if level > 0 {
      var n := CutShort(inputs, fileSizeLimit);
      PrefixIsPickable(v[level], level, b, e, n);
      inputs, cut := inputs[..n], n;
    }
    assert RangeCut(all, level, fileSizeLimit, cut, inputs);
    found := true;
    inputs0, inputs1, grandparents, pointer, plan := SetupOtherInputs(v, level, inputs, expandedLimit);
  }

  // What a manual compaction starts from: the files that meet the range, above level 0 only so
  // many of them as it takes to reach the limit.
  ghost predicate RangePick(files: Level, level: nat, begin: Option<UserKey>, end: Option<UserKey>, fileSizeLimit: nat, picked: Level) {
    exists all, n :: Overlapping(files, level, begin, end, all) && RangeCut(all, level, fileSizeLimit, n, picked)
  }

  ghost predicate RangeCut(all: Level, level: nat, fileSizeLimit: nat, n: nat, picked: Level) {
    if level == 0 then picked == all else CutAt(all, fileSizeLimit, n) && picked == all[..n]
  }
}
