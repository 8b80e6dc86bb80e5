/** VersionSet::Builder (db/version_set.cc): applying version edits to a version, one level
  at a time, and replaying a manifest through a single builder. */
module VersionBuilder {
  import opened Keys
  import opened VersionModel

  // BySmallestKey: the smallest key decides, ties are broken by file number.
  predicate BySmallestKey(f: FileMetaData, g: FileMetaData) {
    Less(f.smallest, g.smallest) || (!Less(g.smallest, f.smallest) && f.number < g.number)
  }

  ghost predicate InFileOrder(files: Level) {
    forall i, j :: 0 <= i < j < |files| ==> BySmallestKey(files[i], files[j])
  }

  // What one edit says about one level.
  datatype LevelEdit = LevelEdit(deleted: set<nat>, added: set<FileMetaData>)

  // The per-level state of a Builder (LevelState).
  datatype LevelState = LevelState(deletedFiles: set<nat>, addedFiles: set<FileMetaData>)

  const EMPTY_STATE := LevelState({}, {})

  function Numbers(files: set<FileMetaData>): set<nat> {
    set f | f in files :: f.number
  }

  // Builder::Apply: deletions first, then each added file is taken off the deleted list.
  function Apply(s: LevelState, edit: LevelEdit): LevelState {
    LevelState(s.deletedFiles + edit.deleted - Numbers(edit.added), s.addedFiles + edit.added)
  }

  // The files a builder in state `s` leaves at the level (MaybeAddFile drops the deleted ones).
  ghost function Surviving(base: set<FileMetaData>, s: LevelState): (r: set<FileMetaData>)
    ensures forall f :: f in r <==> (f in base || f in s.addedFiles) && f.number !in s.deletedFiles
  {
    set f | f in base + s.addedFiles && f.number !in s.deletedFiles
  }

  ghost function AsSet(files: Level): (r: set<FileMetaData>)
    ensures forall f :: f in r <==> f in files
  {
    set f | f in files
  }

  // std::upper_bound over base_files[from..].
  method UpperBound(baseFiles: Level, from: nat, f: FileMetaData) returns (pos: nat)
    requires from <= |baseFiles| && InFileOrder(baseFiles)
    ensures from <= pos <= |baseFiles|
    ensures forall k :: from <= k < pos ==> !BySmallestKey(f, baseFiles[k])
    ensures forall k :: pos <= k < |baseFiles| ==> BySmallestKey(f, baseFiles[k])
  {
    pos := from;
    var right := |baseFiles|;
    while pos < right
      invariant from <= pos <= right <= |baseFiles|
      invariant forall k :: from <= k < pos ==> !BySmallestKey(f, baseFiles[k])
      invariant forall k :: right <= k < |baseFiles| ==> BySmallestKey(f, baseFiles[k])
    {
      var mid := (pos + right) / 2;
      if BySmallestKey(f, baseFiles[mid]) {
        right := mid;
      } else {
        pos := mid + 1;
      }
    }
  }

  // MaybeAddFile.
  function MaybeAdd(files: Level, f: FileMetaData, deletedFiles: set<nat>): Level {
    if f.number in deletedFiles then files else files + [f]
  }

  // The merge of baseFiles from b on and added from a on; of two tied files the base file
  // comes first.
  function MergeFrom(baseFiles: Level, b: nat, added: Level, a: nat, deletedFiles: set<nat>): Level
    requires b <= |baseFiles| && a <= |added|
    decreases |baseFiles| - b + |added| - a
  {
    if a < |added| && (b == |baseFiles| || BySmallestKey(added[a], baseFiles[b])) then
      MaybeAdd([], added[a], deletedFiles) + MergeFrom(baseFiles, b, added, a + 1, deletedFiles)
    else if b < |baseFiles| then
      MaybeAdd([], baseFiles[b], deletedFiles) + MergeFrom(baseFiles, b + 1, added, a, deletedFiles)
    else
      []
  }

  lemma AddsNext(files: Level, f: FileMetaData, deletedFiles: set<nat>, rest: Level)
    ensures MaybeAdd(files, f, deletedFiles) + rest == files + (MaybeAdd([], f, deletedFiles) + rest)
  {
  }

  // Builder::SaveTo for one level: `added` is the sorted added_files set.
  method SaveTo(baseFiles: Level, added: Level, deletedFiles: set<nat>) returns (files: Level)
    requires InFileOrder(baseFiles) && InFileOrder(added)
    ensures files == MergeFrom(baseFiles, 0, added, 0, deletedFiles)
  {
    files := [];
    var baseIter := 0;
    for a := 0 to |added|
      invariant 0 <= baseIter <= |baseFiles|
      invariant files + MergeFrom(baseFiles, baseIter, added, a, deletedFiles) == MergeFrom(baseFiles, 0, added, 0, deletedFiles)
    {
      // Add all smaller files of the base version.
      var bpos := UpperBound(baseFiles, baseIter, added[a]);
      while baseIter != bpos
        invariant 0 <= baseIter <= bpos
        invariant files + MergeFrom(baseFiles, baseIter, added, a, deletedFiles) == MergeFrom(baseFiles, 0, added, 0, deletedFiles)
        decreases bpos - baseIter
      {
        AddsNext(files, baseFiles[baseIter], deletedFiles, MergeFrom(baseFiles, baseIter + 1, added, a, deletedFiles));
        files := MaybeAdd(files, baseFiles[baseIter], deletedFiles);
        baseIter := baseIter + 1;
      }
      AddsNext(files, added[a], deletedFiles, MergeFrom(baseFiles, baseIter, added, a + 1, deletedFiles));
      files := MaybeAdd(files, added[a], deletedFiles);
    }
    // Add the remaining base files.
    while baseIter != |baseFiles|
      invariant 0 <= baseIter <= |baseFiles|
      invariant files + MergeFrom(baseFiles, baseIter, added, |added|, deletedFiles) == MergeFrom(baseFiles, 0, added, 0, deletedFiles)
      decreases |baseFiles| - baseIter
    {
      AddsNext(files, baseFiles[baseIter], deletedFiles, MergeFrom(baseFiles, baseIter + 1, added, |added|, deletedFiles));
      files := MaybeAdd(files, baseFiles[baseIter], deletedFiles);
      baseIter := baseIter + 1;
    }
  }

  predicate InFrom(files: Level, i: nat, f: FileMetaData) {
    exists k :: i <= k < |files| && files[k] == f
  }

  lemma InFromNext(files: Level, i: nat, f: FileMetaData)
    requires i < |files|
    ensures InFrom(files, i, f) <==> f == files[i] || InFrom(files, i + 1, f)
  {
  }

  lemma AddsOneOrNone(f: FileMetaData, rest: Level, deletedFiles: set<nat>)
    ensures MaybeAdd([], f, deletedFiles) + rest == if f.number in deletedFiles then rest else [f] + rest
    ensures forall g :: g in MaybeAdd([], f, deletedFiles) + rest <==> (g == f && f.number !in deletedFiles) || g in rest
  {
    var all := MaybeAdd([], f, deletedFiles) + rest;
    assert all == if f.number in deletedFiles then rest else [f] + rest;
  }

  // What the merge has to do with a file: it is listed if it is on one side and not deleted.
  predicate ListsRight(baseFiles: Level, b: nat, added: Level, a: nat, deletedFiles: set<nat>, f: FileMetaData)
    requires b <= |baseFiles| && a <= |added|
  {
    f in MergeFrom(baseFiles, b, added, a, deletedFiles)
    <==> (InFrom(baseFiles, b, f) || InFrom(added, a, f)) && f.number !in deletedFiles
  }

  lemma ListsAdded(baseFiles: Level, b: nat, added: Level, a: nat, deletedFiles: set<nat>, f: FileMetaData)
    requires b <= |baseFiles| && a < |added| && (b == |baseFiles| || BySmallestKey(added[a], baseFiles[b]))
    requires ListsRight(baseFiles, b, added, a + 1, deletedFiles, f)
    ensures ListsRight(baseFiles, b, added, a, deletedFiles, f)
  {
    InFromNext(added, a, f);
    AddsOneOrNone(added[a], MergeFrom(baseFiles, b, added, a + 1, deletedFiles), deletedFiles);
  }

  lemma ListsBase(baseFiles: Level, b: nat, added: Level, a: nat, deletedFiles: set<nat>, f: FileMetaData)
    requires b < |baseFiles| && a <= |added| && (a == |added| || !BySmallestKey(added[a], baseFiles[b]))
    requires ListsRight(baseFiles, b + 1, added, a, deletedFiles, f)
    ensures ListsRight(baseFiles, b, added, a, deletedFiles, f)
  {
    InFromNext(baseFiles, b, f);
    AddsOneOrNone(baseFiles[b], MergeFrom(baseFiles, b + 1, added, a, deletedFiles), deletedFiles);
  }

  // All files of both sides that are not deleted.
  lemma {:induction false} MergeMembers(baseFiles: Level, b: nat, added: Level, a: nat, deletedFiles: set<nat>, f: FileMetaData)
    requires b <= |baseFiles| && a <= |added|
    ensures ListsRight(baseFiles, b, added, a, deletedFiles, f)
    decreases |baseFiles| - b + |added| - a
  {
    if a < |added| && (b == |baseFiles| || BySmallestKey(added[a], baseFiles[b])) {
      MergeMembers(baseFiles, b, added, a + 1, deletedFiles, f);
      ListsAdded(baseFiles, b, added, a, deletedFiles, f);
    } else if b < |baseFiles| {
      MergeMembers(baseFiles, b + 1, added, a, deletedFiles, f);
      ListsBase(baseFiles, b, added, a, deletedFiles, f);
    }
  }

  lemma MergeSurvives(baseFiles: Level, added: Level, deletedFiles: set<nat>)
    ensures AsSet(MergeFrom(baseFiles, 0, added, 0, deletedFiles))
         == Surviving(AsSet(baseFiles), LevelState(deletedFiles, AsSet(added)))
  {
    forall f
      ensures f in MergeFrom(baseFiles, 0, added, 0, deletedFiles)
         <==> (f in baseFiles || f in added) && f.number !in deletedFiles
    {
      MergeMembers(baseFiles, 0, added, 0, deletedFiles, f);
      assert f in baseFiles <==> InFrom(baseFiles, 0, f);
      assert f in added <==> InFrom(added, 0, f);
    }
  }

  // Two files that the order does not tell apart: same smallest key and same number.
  predicate Tied(f: FileMetaData, g: FileMetaData) {
    !BySmallestKey(f, g) && !BySmallestKey(g, f)
  }

  ghost predicate NoTies(baseFiles: Level, b: nat, added: Level, a: nat, deletedFiles: set<nat>) {
    forall i, k {:trigger Tied(baseFiles[i], added[k])} :: b <= i < |baseFiles| && a <= k < |added| ==>
      baseFiles[i].number in deletedFiles || !Tied(baseFiles[i], added[k])
  }

  lemma OrderOfFiles(f: FileMetaData, g: FileMetaData, h: FileMetaData)
    ensures BySmallestKey(f, g) && BySmallestKey(g, h) ==> BySmallestKey(f, h)
    ensures Tied(f, g) && BySmallestKey(g, h) ==> BySmallestKey(f, h)
    ensures Tied(f, g) ==> f.number == g.number
    ensures !(BySmallestKey(f, g) && BySmallestKey(g, f))
  {
  }

  lemma OrderFromHead(f: FileMetaData, rest: Level)
    ensures InFileOrder([f] + rest) <==> InFileOrder(rest) && forall g :: g in rest ==> BySmallestKey(f, g)
  {
    var files := [f] + rest;
    assert forall i :: 0 <= i < |rest| ==> rest[i] == files[i + 1];
    if InFileOrder(files) {
      forall g | g in rest
        ensures BySmallestKey(f, g)
      {
        var i :| 0 <= i < |rest| && rest[i] == g;
        assert BySmallestKey(files[0], files[i + 1]);
      }
    }
  }

  lemma AddedComesFirst(baseFiles: Level, b: nat, added: Level, a: nat, deletedFiles: set<nat>, g: FileMetaData)
    requires InFileOrder(baseFiles) && InFileOrder(added) && b <= |baseFiles| && a < |added|
    requires b == |baseFiles| || BySmallestKey(added[a], baseFiles[b])
    requires InFrom(baseFiles, b, g) || InFrom(added, a + 1, g)
    ensures BySmallestKey(added[a], g)
  {
    if InFrom(baseFiles, b, g) {
      OrderOfFiles(added[a], baseFiles[b], g);
    }
  }

  lemma BaseComesFirst(baseFiles: Level, b: nat, added: Level, a: nat, deletedFiles: set<nat>, g: FileMetaData)
    requires InFileOrder(baseFiles) && InFileOrder(added) && b < |baseFiles| && a <= |added|
    requires a == |added| || BySmallestKey(baseFiles[b], added[a])
    requires InFrom(baseFiles, b + 1, g) || InFrom(added, a, g)
    ensures BySmallestKey(baseFiles[b], g)
  {
    if InFrom(added, a, g) {
      OrderOfFiles(baseFiles[b], added[a], g);
    }
  }

  // One file before the rest of the merge, if all of that comes after it.
  lemma HeadInOrder(f: FileMetaData, rest: Level, deletedFiles: set<nat>)
    requires forall g :: g in rest ==> BySmallestKey(f, g)
    ensures InFileOrder(MaybeAdd([], f, deletedFiles) + rest) <==> InFileOrder(rest)
  {
    AddsOneOrNone(f, rest, deletedFiles);
    if f.number !in deletedFiles {
      OrderFromHead(f, rest);
    }
  }

  lemma AddedBeforeRest(baseFiles: Level, b: nat, added: Level, a: nat, deletedFiles: set<nat>)
    requires InFileOrder(baseFiles) && InFileOrder(added) && b <= |baseFiles| && a < |added|
    requires b == |baseFiles| || BySmallestKey(added[a], baseFiles[b])
    ensures forall g :: g in MergeFrom(baseFiles, b, added, a + 1, deletedFiles) ==> BySmallestKey(added[a], g)
    ensures NoTies(baseFiles, b, added, a, deletedFiles) <==> NoTies(baseFiles, b, added, a + 1, deletedFiles)
  {
    forall g | g in MergeFrom(baseFiles, b, added, a + 1, deletedFiles)
      ensures BySmallestKey(added[a], g)
    {
      MergeMembers(baseFiles, b, added, a + 1, deletedFiles, g);
      AddedComesFirst(baseFiles, b, added, a, deletedFiles, g);
    }
    forall i | b <= i < |baseFiles|
      ensures !Tied(baseFiles[i], added[a])
    {
      AddedComesFirst(baseFiles, b, added, a, deletedFiles, baseFiles[i]);
    }
  }

  lemma BaseBeforeRest(baseFiles: Level, b: nat, added: Level, a: nat, deletedFiles: set<nat>)
    requires InFileOrder(baseFiles) && InFileOrder(added) && b < |baseFiles| && a <= |added|
    requires a == |added| || BySmallestKey(baseFiles[b], added[a])
    ensures forall g :: g in MergeFrom(baseFiles, b + 1, added, a, deletedFiles) ==> BySmallestKey(baseFiles[b], g)
    ensures NoTies(baseFiles, b, added, a, deletedFiles) <==> NoTies(baseFiles, b + 1, added, a, deletedFiles)
  {
    forall g | g in MergeFrom(baseFiles, b + 1, added, a, deletedFiles)
      ensures BySmallestKey(baseFiles[b], g)
    {
      MergeMembers(baseFiles, b + 1, added, a, deletedFiles, g);
      BaseComesFirst(baseFiles, b, added, a, deletedFiles, g);
    }
    forall k | a <= k < |added|
      ensures !Tied(baseFiles[b], added[k])
    {
      assert InFrom(added, a, added[k]);
      BaseComesFirst(baseFiles, b, added, a, deletedFiles, added[k]);
    }
  }

  // Base file b is tied with added file a, which is still to come: the list is not in order,
  // unless both are deleted.
  lemma TiedFiles(baseFiles: Level, b: nat, added: Level, a: nat, deletedFiles: set<nat>)
    requires InFileOrder(baseFiles) && InFileOrder(added) && b < |baseFiles| && a < |added|
    requires Tied(baseFiles[b], added[a]) && baseFiles[b].number !in deletedFiles
    ensures !InFileOrder(MaybeAdd([], baseFiles[b], deletedFiles) + MergeFrom(baseFiles, b + 1, added, a, deletedFiles))
  {
    var rest := MergeFrom(baseFiles, b + 1, added, a, deletedFiles);
    OrderOfFiles(baseFiles[b], added[a], added[a]);
    MergeMembers(baseFiles, b + 1, added, a, deletedFiles, added[a]);
    assert InFrom(added, a, added[a]);
    OrderFromHead(baseFiles[b], rest);
    assert [] + [baseFiles[b]] == [baseFiles[b]];
  }

  lemma DeletedDoesNotTie(baseFiles: Level, b: nat, added: Level, a: nat, deletedFiles: set<nat>)
    requires b < |baseFiles| && a <= |added| && baseFiles[b].number in deletedFiles
    ensures NoTies(baseFiles, b, added, a, deletedFiles) <==> NoTies(baseFiles, b + 1, added, a, deletedFiles)
  {
  }

  // The merged list is in strict file order exactly when no file of the base version that
  // stays is tied with an added one.
  lemma {:induction false} MergeInOrder(baseFiles: Level, b: nat, added: Level, a: nat, deletedFiles: set<nat>)
    requires InFileOrder(baseFiles) && InFileOrder(added) && b <= |baseFiles| && a <= |added|
    ensures InFileOrder(MergeFrom(baseFiles, b, added, a, deletedFiles)) <==> NoTies(baseFiles, b, added, a, deletedFiles)
    decreases |baseFiles| - b + |added| - a
  {
    if a < |added| && (b == |baseFiles| || BySmallestKey(added[a], baseFiles[b])) {
      MergeInOrder(baseFiles, b, added, a + 1, deletedFiles);
      AddedBeforeRest(baseFiles, b, added, a, deletedFiles);
      HeadInOrder(added[a], MergeFrom(baseFiles, b, added, a + 1, deletedFiles), deletedFiles);
    } else if b < |baseFiles| {
      MergeInOrder(baseFiles, b + 1, added, a, deletedFiles);
      BaseFirst(baseFiles, b, added, a, deletedFiles);
    }
  }

  lemma BaseFirst(baseFiles: Level, b: nat, added: Level, a: nat, deletedFiles: set<nat>)
    requires InFileOrder(baseFiles) && InFileOrder(added) && b < |baseFiles| && a <= |added|
    requires a == |added| || !BySmallestKey(added[a], baseFiles[b])
    requires InFileOrder(MergeFrom(baseFiles, b + 1, added, a, deletedFiles)) <==> NoTies(baseFiles, b + 1, added, a, deletedFiles)
    ensures InFileOrder(MaybeAdd([], baseFiles[b], deletedFiles) + MergeFrom(baseFiles, b + 1, added, a, deletedFiles))
       <==> NoTies(baseFiles, b, added, a, deletedFiles)
  {
    var f, rest := baseFiles[b], MergeFrom(baseFiles, b + 1, added, a, deletedFiles);
    if f.number in deletedFiles {
      DeletedDoesNotTie(baseFiles, b, added, a, deletedFiles);
      assert [] + rest == rest;
    } else if a < |added| && Tied(f, added[a]) {
      TiedFiles(baseFiles, b, added, a, deletedFiles);
    } else {
      BaseBeforeRest(baseFiles, b, added, a, deletedFiles);
      HeadInOrder(f, rest, deletedFiles);
    }
  }

  // A file is never added to a level that already has its number, so in practice the lists
  // are in order and determined by their members.
  lemma SavedInOrder(baseFiles: Level, added: Level, deletedFiles: set<nat>)
    requires InFileOrder(baseFiles) && InFileOrder(added)
    requires forall i, k :: 0 <= i < |baseFiles| && 0 <= k < |added| ==> baseFiles[i].number != added[k].number
    ensures InFileOrder(MergeFrom(baseFiles, 0, added, 0, deletedFiles))
    ensures AsSet(MergeFrom(baseFiles, 0, added, 0, deletedFiles))
         == Surviving(AsSet(baseFiles), LevelState(deletedFiles, AsSet(added)))
  {
    MergeSurvives(baseFiles, added, deletedFiles);
    MergeInOrder(baseFiles, 0, added, 0, deletedFiles);
    forall i, k | 0 <= i < |baseFiles| && 0 <= k < |added|
      ensures !Tied(baseFiles[i], added[k])
    {
      OrderOfFiles(baseFiles[i], added[k], added[k]);
    }
  }

  // ---------- edits through one builder ----------

  // A number stands for one file: that file is what `files` has under the number.
  ghost predicate Named(files: nat -> FileMetaData, fs: set<FileMetaData>) {
    forall f :: f in fs ==> files(f.number) == f
  }

  // One more edit through the same builder is one more version.
  lemma ReplayStep(files: nat -> FileMetaData, base: set<FileMetaData>, s: LevelState, edit: LevelEdit)
    requires Named(files, base) && Named(files, s.addedFiles) && Named(files, edit.added)
    ensures Surviving(base, Apply(s, edit)) == Surviving(Surviving(base, s), Apply(EMPTY_STATE, edit))
  {
    var numbers := Numbers(edit.added);
    forall f
      ensures f in Surviving(base, Apply(s, edit)) <==> f in Surviving(Surviving(base, s), Apply(EMPTY_STATE, edit))
    {
      if f in edit.added {
        assert f.number in numbers;
      }
    }
  }

  lemma OnlyEmptyIsEmpty(files: Level)
    ensures files == [] <==> AsSet(files) == {}
  {
    assert files != [] ==> files[0] in AsSet(files);
  }

  // A level list is determined by its files: two builders that leave the same files leave
  // the same list.
  lemma {:induction false} FileOrderUnique(xs: Level, ys: Level)
    requires InFileOrder(xs) && InFileOrder(ys) && AsSet(xs) == AsSet(ys)
    ensures xs == ys
  {
    if xs == [] {
      OnlyEmptyIsEmpty(ys);
    } else {
      assert xs[0] in AsSet(ys);
      assert ys != [] && ys[0] in AsSet(xs);
      assert xs[0] == ys[0];
      forall f
        ensures f in xs[1..] <==> f in ys[1..]
      {
        assert f in xs <==> f in ys;
        assert f in xs[1..] <==> f in xs && f != xs[0];
        assert f in ys[1..] <==> f in ys && f != ys[0];
      }
      FileOrderUnique(xs[1..], ys[1..]);
    }
  }
}
