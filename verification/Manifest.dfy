/** The manifest (db/version_set.cc): versions made by a builder from edits, the snapshot
  record, and what a builder that is fed with all records makes of them. */
module Manifest {
  import opened Wrappers
  import opened Keys
  import opened Coding
  import opened VersionModel
  import opened VersionBuilder
  import opened VersionEdits
  import Separators

  // How keys are stored, and what a file number stands for. User keys of the model are
  // positions in the order; `stored` is the byte string that has the position of a key.
  datatype Disk = Disk(stored: InternalKey -> Slice, files: nat -> FileMetaData)

  // A file as an edit tells of it; its entries are in the table itself.
  function FileOf(d: Disk, f: StoredFile): FileMetaData {
    FileMetaData(f.number, f.size, Separators.KeyOf(f.smallest), Separators.KeyOf(f.largest), d.files(f.number).entries)
  }

  // The file can be written to the manifest and found again.
  predicate Storable(d: Disk, f: FileMetaData) {
    && f.number < TWO64 && f.size < TWO64 && d.files(f.number).entries == f.entries
    && d.stored(f.smallest) != [] && Separators.KeyOf(d.stored(f.smallest)) == f.smallest
    && d.stored(f.largest) != [] && Separators.KeyOf(d.stored(f.largest)) == f.largest
  }

  function StoredOf(d: Disk, f: FileMetaData): StoredFile
    requires Storable(d, f)
  {
    StoredFile(f.number, f.size, d.stored(f.smallest), d.stored(f.largest))
  }

  lemma StoredIsBack(d: Disk, f: FileMetaData)
    requires Storable(d, f)
    ensures FileOf(d, StoredOf(d, f)) == f
  {
  }

  // What an edit says about one level.
  function AddedAt(d: Disk, e: Edit, l: nat): set<FileMetaData> {
    set i | 0 <= i < |e.newFiles| && e.newFiles[i].level == l :: FileOf(d, e.newFiles[i].file)
  }

  function DeletedAt(e: Edit, l: nat): set<nat> {
    set i | 0 <= i < |e.deletedFiles| && e.deletedFiles[i].level == l :: e.deletedFiles[i].number
  }

  function LevelOf(d: Disk, e: Edit, l: nat): LevelEdit {
    LevelEdit(DeletedAt(e, l), AddedAt(d, e, l))
  }

  // The edit tells of the files that their numbers stand for.
  ghost predicate NamedEdit(d: Disk, e: Edit) {
    forall i :: 0 <= i < |e.newFiles| ==> NamedFile(d, e.newFiles[i].file)
  }

  predicate NamedFile(d: Disk, f: StoredFile) {
    d.files(f.number) == FileOf(d, f)
  }

  lemma AddedNamed(d: Disk, e: Edit, level: nat)
    requires NamedEdit(d, e)
    ensures Named(d.files, AddedAt(d, e, level))
  {
    forall f | f in AddedAt(d, e, level)
      ensures d.files(f.number) == f
    {
      var i :| 0 <= i < |e.newFiles| && e.newFiles[i].level == level && f == FileOf(d, e.newFiles[i].file);
      assert NamedFile(d, e.newFiles[i].file);
    }
  }

  // ---------- the builder ----------

  // std::set::insert with BySmallestKey: a tied file is not taken.
  function InsertFile(files: Level, f: FileMetaData): Level {
    if files == [] || BySmallestKey(f, files[0]) then [f] + files
    else if !BySmallestKey(files[0], f) then files
    else [files[0]] + InsertFile(files[1..], f)
  }

  lemma {:induction false} InsertFileMembers(files: Level, f: FileMetaData)
    requires InFileOrder(files)
    ensures InFileOrder(InsertFile(files, f))
    ensures forall g :: g in InsertFile(files, f) ==> g in files || g == f
    ensures forall g :: g in files ==> g in InsertFile(files, f)
    ensures (forall g :: g in files && g.number == f.number ==> g == f) ==> f in InsertFile(files, f)
  {
    if files == [] {
    } else if BySmallestKey(f, files[0]) {
      InsertedFirst(files, f);
    } else if BySmallestKey(files[0], f) {
      InsertFileMembers(files[1..], f);
      InsertedLater(files, f);
    } else {
      OrderOfFiles(f, files[0], f);
    }
  }

  lemma InsertedFirst(files: Level, f: FileMetaData)
    requires files != [] && InFileOrder(files) && BySmallestKey(f, files[0])
    ensures InFileOrder([f] + files) && forall g :: g in [f] + files <==> g in files || g == f
  {
    forall g | g in files
      ensures BySmallestKey(f, g)
    {
      OrderOfFiles(f, files[0], g);
    }
    OrderFromHead(f, files);
  }

  lemma InsertedLater(files: Level, f: FileMetaData)
    requires files != [] && InFileOrder(files) && BySmallestKey(files[0], f)
    requires InFileOrder(InsertFile(files[1..], f))
    requires forall g :: g in InsertFile(files[1..], f) ==> g in files[1..] || g == f
    ensures InFileOrder([files[0]] + InsertFile(files[1..], f))
    ensures forall g :: g in [files[0]] + InsertFile(files[1..], f) <==> g == files[0] || g in InsertFile(files[1..], f)
    ensures forall g :: g in files <==> g == files[0] || g in files[1..]
  {
    OrderFromHead(files[0], InsertFile(files[1..], f));
    assert [files[0]] + files[1..] == files;
  }

  // LevelState, with the set of added files as a sorted list.
  datatype LevelFiles = LevelFiles(deletedFiles: set<nat>, addedFiles: Level)

  const NO_FILES := LevelFiles({}, [])

  ghost function StateOf(l: LevelFiles): LevelState {
    LevelState(l.deletedFiles, AsSet(l.addedFiles))
  }

  // A std::set<FileMetaData*, BySmallestKey> of files that are what their numbers stand for.
  ghost predicate ValidFiles(d: Disk, l: LevelFiles) {
    InFileOrder(l.addedFiles) && Named(d.files, AsSet(l.addedFiles))
  }

  // The parts of Apply: all deletions, then the new files one by one.
  function WithDeletions(l: LevelFiles, numbers: set<nat>): LevelFiles {
    l.(deletedFiles := l.deletedFiles + numbers)
  }

  function WithFile(l: LevelFiles, f: FileMetaData): LevelFiles {
    LevelFiles(l.deletedFiles - {f.number}, InsertFile(l.addedFiles, f))
  }

  // The new files of the edit up to n, at one level.
  function WithFiles(d: Disk, l: LevelFiles, e: Edit, level: nat, n: nat): LevelFiles
    requires n <= |e.newFiles|
  {
    if n == 0 then l
    else
      var before := WithFiles(d, l, e, level, n - 1);
      if e.newFiles[n - 1].level == level then WithFile(before, FileOf(d, e.newFiles[n - 1].file)) else before
  }

  function AppliedTo(d: Disk, l: LevelFiles, e: Edit, level: nat): LevelFiles {
    WithFiles(d, WithDeletions(l, DeletedAt(e, level)), e, level, |e.newFiles|)
  }

  // What the level gets of the first n new files.
  function AddedFirst(d: Disk, e: Edit, level: nat, n: nat): set<FileMetaData>
    requires n <= |e.newFiles|
  {
    set i | 0 <= i < n && e.newFiles[i].level == level :: FileOf(d, e.newFiles[i].file)
  }

  lemma AddedFirstNext(d: Disk, e: Edit, level: nat, n: nat)
    requires 0 < n <= |e.newFiles|
    ensures e.newFiles[n - 1].level == level ==>
              AddedFirst(d, e, level, n) == AddedFirst(d, e, level, n - 1) + {FileOf(d, e.newFiles[n - 1].file)}
    ensures e.newFiles[n - 1].level != level ==> AddedFirst(d, e, level, n) == AddedFirst(d, e, level, n - 1)
  {
  }

  // `after` is l with these files added.
  ghost predicate HasAdded(d: Disk, l: LevelFiles, after: LevelFiles, added: set<FileMetaData>) {
    && ValidFiles(d, after)
    && StateOf(after) == LevelState(l.deletedFiles - Numbers(added), AsSet(l.addedFiles) + added)
  }

  lemma AddedOneMore(d: Disk, l: LevelFiles, before: LevelFiles, added: set<FileMetaData>, f: FileMetaData)
    requires HasAdded(d, l, before, added) && d.files(f.number) == f
    ensures HasAdded(d, l, WithFile(before, f), added + {f})
  {
    WithFileIs(d, before, f);
    assert Numbers(added + {f}) == Numbers(added) + {f.number};
  }

  lemma AddedNone(d: Disk, l: LevelFiles, e: Edit, level: nat)
    requires ValidFiles(d, l)
    ensures HasAdded(d, l, l, AddedFirst(d, e, level, 0))
  {
    assert AddedFirst(d, e, level, 0) == {};
    assert Numbers({}) == {};
  }

  lemma {:induction false} WithFilesIs(d: Disk, l: LevelFiles, e: Edit, level: nat, n: nat)
    requires n <= |e.newFiles| && ValidFiles(d, l) && NamedEdit(d, e)
    ensures HasAdded(d, l, WithFiles(d, l, e, level, n), AddedFirst(d, e, level, n))
    decreases n
  {
    if n == 0 {
      AddedNone(d, l, e, level);
    } else {
      WithFilesIs(d, l, e, level, n - 1);
      AddedFirstNext(d, e, level, n);
      if e.newFiles[n - 1].level == level {
        assert NamedFile(d, e.newFiles[n - 1].file);
        AddedOneMore(d, l, WithFiles(d, l, e, level, n - 1), AddedFirst(d, e, level, n - 1), FileOf(d, e.newFiles[n - 1].file));
      }
    }
  }

  lemma WithFileIs(d: Disk, l: LevelFiles, f: FileMetaData)
    requires ValidFiles(d, l) && d.files(f.number) == f
    ensures ValidFiles(d, WithFile(l, f))
    ensures StateOf(WithFile(l, f)) == LevelState(l.deletedFiles - {f.number}, AsSet(l.addedFiles) + {f})
  {
    assert forall g :: g in l.addedFiles ==> g in AsSet(l.addedFiles);
    InsertFileMembers(l.addedFiles, f);
  }

  // Builder::Apply on one level.
  lemma AppliedIs(d: Disk, l: LevelFiles, e: Edit, level: nat)
    requires ValidFiles(d, l) && NamedEdit(d, e)
    ensures ValidFiles(d, AppliedTo(d, l, e, level))
    ensures StateOf(AppliedTo(d, l, e, level)) == Apply(StateOf(l), LevelOf(d, e, level))
  {
    WithFilesIs(d, WithDeletions(l, DeletedAt(e, level)), e, level, |e.newFiles|);
    assert AddedFirst(d, e, level, |e.newFiles|) == AddedAt(d, e, level);
  }

  // ---------- several edits through one builder ----------

  function AppliedAll(d: Disk, edits: seq<Edit>, level: nat, n: nat): LevelFiles
    requires n <= |edits|
  {
    if n == 0 then NO_FILES else AppliedTo(d, AppliedAll(d, edits, level, n - 1), edits[n - 1], level)
  }

  // Builder::SaveTo.
  function Merged(files: Level, l: LevelFiles): Level {
    MergeFrom(files, 0, l.addedFiles, 0, l.deletedFiles)
  }

  function Saved(d: Disk, base: Version, edits: seq<Edit>, level: nat): Level
    requires level < 7
  {
    Merged(base[level], AppliedAll(d, edits, level, |edits|))
  }

  ghost predicate NamedEdits(d: Disk, edits: seq<Edit>) {
    forall i :: 0 <= i < |edits| ==> NamedEdit(d, edits[i])
  }

  lemma {:induction false} AppliedAllValid(d: Disk, edits: seq<Edit>, level: nat, n: nat)
    requires n <= |edits| && NamedEdits(d, edits)
    ensures ValidFiles(d, AppliedAll(d, edits, level, n))
    decreases n
  {
    if n > 0 {
      AppliedAllValid(d, edits, level, n - 1);
      assert NamedEdit(d, edits[n - 1]);
      AppliedIs(d, AppliedAll(d, edits, level, n - 1), edits[n - 1], level);
    }
  }

  lemma {:induction false} AppliedAllFirst(d: Disk, edits: seq<Edit>, more: seq<Edit>, level: nat, n: nat)
    requires n <= |edits|
    ensures AppliedAll(d, edits + more, level, n) == AppliedAll(d, edits, level, n)
    decreases n
  {
    if n > 0 {
      AppliedAllFirst(d, edits, more, level, n - 1);
    }
  }

  lemma AppliedOneMore(d: Disk, edits: seq<Edit>, e: Edit, level: nat)
    ensures AppliedAll(d, edits + [e], level, |edits| + 1) == AppliedTo(d, AppliedAll(d, edits, level, |edits|), e, level)
  {
    AppliedAllFirst(d, edits, [e], level, |edits|);
    assert (edits + [e])[|edits|] == e;
  }

  // ---------- one version after the other ----------

  // The edit brings no number that the level has.
  ghost predicate NewFiles(d: Disk, v: Version, e: Edit) {
    forall l :: 0 <= l < 7 ==> NewAt(d, v[l], e, l)
  }

  ghost predicate NewAt(d: Disk, files: Level, e: Edit, level: nat) {
    forall f, g :: f in files && g in AddedAt(d, e, level) ==> f.number != g.number
  }

  // LogAndApply: the version after an edit.
  ghost predicate Installed(d: Disk, v: Version, e: Edit, w: Version) {
    forall l {:trigger Saved(d, v, [e], l)} :: 0 <= l < 7 ==> w[l] == Saved(d, v, [e], l)
  }

  lemma SavedFrom(files: Level, l: LevelFiles)
    requires InFileOrder(files) && InFileOrder(l.addedFiles)
    requires forall f, g :: f in files && g in l.addedFiles ==> f.number != g.number
    ensures InFileOrder(Merged(files, l)) && AsSet(Merged(files, l)) == Surviving(AsSet(files), StateOf(l))
  {
    SavedInOrder(files, l.addedFiles, l.deletedFiles);
  }

  lemma OneEdit(d: Disk, e: Edit, level: nat)
    requires NamedEdit(d, e)
    ensures ValidFiles(d, AppliedAll(d, [e], level, 1))
    ensures StateOf(AppliedAll(d, [e], level, 1)) == Apply(EMPTY_STATE, LevelOf(d, e, level))
  {
    AppliedIs(d, NO_FILES, e, level);
    AppliedOneMore(d, [], e, level);
    assert [] + [e] == [e];
    assert StateOf(NO_FILES) == EMPTY_STATE;
  }

  // Each level gets the files that the edit leaves and adds.
  lemma OneVersionOn(d: Disk, v: Version, e: Edit, level: nat)
    requires level < 7 && NamedEdit(d, e) && InFileOrder(v[level]) && NewAt(d, v[level], e, level)
    ensures InFileOrder(Saved(d, v, [e], level))
    ensures AsSet(Saved(d, v, [e], level)) == Surviving(AsSet(v[level]), Apply(EMPTY_STATE, LevelOf(d, e, level)))
  {
    OneEdit(d, e, level);
    var l := AppliedAll(d, [e], level, 1);
    assert forall g :: g in l.addedFiles ==> g in StateOf(l).addedFiles;
    SavedFrom(v[level], l);
  }

  // ---------- what the records say ----------

  const EMPTY_VERSION: Version := [[], [], [], [], [], [], []]

  lemma NothingOn(level: nat)
    requires level < 7
    ensures EMPTY_VERSION[level] == []
  {
  }

  // A builder that starts from nothing and is given all edits saves v.
  ghost predicate Says(d: Disk, edits: seq<Edit>, v: Version) {
    forall l {:trigger Saved(d, EMPTY_VERSION, edits, l)} :: 0 <= l < 7 ==> Saved(d, EMPTY_VERSION, edits, l) == v[l]
  }

  lemma SavedFromNothing(d: Disk, edits: seq<Edit>, level: nat)
    requires level < 7 && NamedEdits(d, edits)
    ensures InFileOrder(Saved(d, EMPTY_VERSION, edits, level))
    ensures AsSet(Saved(d, EMPTY_VERSION, edits, level)) == Surviving({}, StateOf(AppliedAll(d, edits, level, |edits|)))
  {
    NothingOn(level);
    AppliedAllValid(d, edits, level, |edits|);
    SavedFrom([], AppliedAll(d, edits, level, |edits|));
    assert AsSet([]) == {};
  }

  lemma NamedOneMore(d: Disk, edits: seq<Edit>, e: Edit)
    requires NamedEdits(d, edits) && NamedEdit(d, e)
    ensures NamedEdits(d, edits + [e])
  {
  }

  // The files of one more edit through the same builder.
  lemma SurvivingNext(d: Disk, l: LevelFiles, e: Edit, level: nat)
    requires ValidFiles(d, l) && NamedEdit(d, e)
    ensures Surviving({}, StateOf(AppliedTo(d, l, e, level)))
         == Surviving(Surviving({}, StateOf(l)), Apply(EMPTY_STATE, LevelOf(d, e, level)))
  {
    AppliedIs(d, l, e, level);
    AddedNamed(d, e, level);
    ReplayStep(d.files, {}, StateOf(l), LevelOf(d, e, level));
  }

  lemma SaysNextAt(d: Disk, edits: seq<Edit>, v: Version, e: Edit, level: nat)
    requires level < 7 && NamedEdits(d, edits) && NamedEdit(d, e)
    requires Saved(d, EMPTY_VERSION, edits, level) == v[level] && NewAt(d, v[level], e, level)
    ensures Saved(d, EMPTY_VERSION, edits + [e], level) == Saved(d, v, [e], level)
  {
    SavedFromNothing(d, edits, level);
    OneVersionOn(d, v, e, level);
    AppliedAllValid(d, edits, level, |edits|);
    SurvivingNext(d, AppliedAll(d, edits, level, |edits|), e, level);
    AppliedOneMore(d, edits, e, level);
    NamedOneMore(d, edits, e);
    SavedFromNothing(d, edits + [e], level);
    FileOrderUnique(Saved(d, EMPTY_VERSION, edits + [e], level), Saved(d, v, [e], level));
  }

  // Recording an edit keeps up with installing it: the same lists of files on each level.
  lemma SaysNext(d: Disk, edits: seq<Edit>, v: Version, e: Edit, w: Version)
    requires Says(d, edits, v) && NamedEdits(d, edits) && NamedEdit(d, e)
    requires NewFiles(d, v, e) && Installed(d, v, e, w)
    ensures Says(d, edits + [e], w)
  {
    forall l | 0 <= l < 7
      ensures Saved(d, EMPTY_VERSION, edits + [e], l) == w[l]
    {
      assert NewAt(d, v[l], e, l);
      SaysNextAt(d, edits, v, e, l);
    }
  }

  // ---------- the snapshot record ----------

  function AddedLevel(d: Disk, files: Level, level: nat, n: nat): (r: seq<Added>)
    requires n <= |files| && level < 7 && forall i :: 0 <= i < |files| ==> Storable(d, files[i])
    ensures |r| == n && forall i :: 0 <= i < n ==> r[i] == Added(level, StoredOf(d, files[i]))
  {
    if n == 0 then [] else AddedLevel(d, files, level, n - 1) + [Added(level, StoredOf(d, files[n - 1]))]
  }

  ghost predicate AllStorable(d: Disk, v: Version) {
    forall l, i :: 0 <= l < 7 && 0 <= i < |v[l]| ==> Storable(d, v[l][i])
  }

  // The files of the first n levels.
  ghost function SnapshotFiles(d: Disk, v: Version, n: nat): seq<Added>
    requires n <= 7 && AllStorable(d, v)
  {
    if n == 0 then [] else SnapshotFiles(d, v, n - 1) + AddedLevel(d, v[n - 1], n - 1, |v[n - 1]|)
  }

  // WriteSnapshot.
  ghost function SnapshotEdit(d: Disk, name: Slice, pointers: seq<Pointer>, v: Version): Edit
    requires AllStorable(d, v)
  {
    Edit(Some(name), None, None, None, None, pointers, [], SnapshotFiles(d, v, 7))
  }

  lemma {:induction false} SnapshotHas(d: Disk, v: Version, n: nat, a: Added)
    requires n <= 7 && AllStorable(d, v)
    ensures a in SnapshotFiles(d, v, n)
       <==> a.level < n && exists i :: 0 <= i < |v[a.level]| && a == Added(a.level, StoredOf(d, v[a.level][i]))
    decreases n
  {
    if n > 0 {
      SnapshotHas(d, v, n - 1, a);
      AddedLevelHas(d, v[n - 1], n - 1, a);
    }
  }

  lemma AddedLevelHas(d: Disk, files: Level, level: nat, a: Added)
    requires level < 7 && forall i :: 0 <= i < |files| ==> Storable(d, files[i])
    ensures a in AddedLevel(d, files, level, |files|)
       <==> a.level == level && exists i :: 0 <= i < |files| && a == Added(level, StoredOf(d, files[i]))
  {
    var r := AddedLevel(d, files, level, |files|);
    if i :| 0 <= i < |files| && a == Added(level, StoredOf(d, files[i])) {
      assert r[i] == a;
    }
  }

  lemma AddedNumber(d: Disk, e: Edit, level: nat, i: nat)
    requires i < |e.newFiles| && e.newFiles[i].level == level
    ensures FileOf(d, e.newFiles[i].file) in AddedAt(d, e, level)
  {
  }

  lemma SnapshotAdds(d: Disk, name: Slice, pointers: seq<Pointer>, v: Version, level: nat)
    requires AllStorable(d, v) && level < 7
    ensures LevelOf(d, SnapshotEdit(d, name, pointers, v), level) == LevelEdit({}, AsSet(v[level]))
  {
    var e := SnapshotEdit(d, name, pointers, v);
    forall f
      ensures f in AddedAt(d, e, level) <==> f in v[level]
    {
      if f in AddedAt(d, e, level) {
        var k :| 0 <= k < |e.newFiles| && e.newFiles[k].level == level && f == FileOf(d, e.newFiles[k].file);
        SnapshotHas(d, v, 7, e.newFiles[k]);
        var i :| 0 <= i < |v[level]| && e.newFiles[k] == Added(level, StoredOf(d, v[level][i]));
        StoredIsBack(d, v[level][i]);
      }
      if f in v[level] {
        var i :| 0 <= i < |v[level]| && v[level][i] == f;
        var a := Added(level, StoredOf(d, f));
        SnapshotHas(d, v, 7, a);
        StoredIsBack(d, f);
        assert a in e.newFiles;
        var k :| 0 <= k < |e.newFiles| && e.newFiles[k] == a;
        AddedNumber(d, e, level, k);
      }
    }
  }

  // The files of the version are what their numbers stand for, and can be written.
  ghost predicate Recordable(d: Disk, v: Version) {
    AllStorable(d, v) && forall l :: 0 <= l < 7 ==> InFileOrder(v[l]) && Named(d.files, AsSet(v[l]))
  }

  lemma SnapshotNamed(d: Disk, name: Slice, pointers: seq<Pointer>, v: Version)
    requires Recordable(d, v)
    ensures NamedEdit(d, SnapshotEdit(d, name, pointers, v))
  {
    var e := SnapshotEdit(d, name, pointers, v);
    forall k | 0 <= k < |e.newFiles|
      ensures NamedFile(d, e.newFiles[k].file)
    {
      var level := e.newFiles[k].level;
      SnapshotHas(d, v, 7, e.newFiles[k]);
      var i :| 0 <= i < |v[level]| && e.newFiles[k] == Added(level, StoredOf(d, v[level][i]));
      StoredIsBack(d, v[level][i]);
      assert v[level][i] in AsSet(v[level]);
    }
  }

  // The snapshot record says the version it was taken of.
  lemma SnapshotSays(d: Disk, name: Slice, pointers: seq<Pointer>, v: Version)
    requires Recordable(d, v)
    ensures Says(d, [SnapshotEdit(d, name, pointers, v)], v)
  {
    var e := SnapshotEdit(d, name, pointers, v);
    SnapshotNamed(d, name, pointers, v);
    forall l | 0 <= l < 7
      ensures Saved(d, EMPTY_VERSION, [e], l) == v[l]
    {
      SnapshotAdds(d, name, pointers, v, l);
      OneEdit(d, e, l);
      SavedFromNothing(d, [e], l);
      assert Surviving({}, Apply(EMPTY_STATE, LevelEdit({}, AsSet(v[l])))) == AsSet(v[l]);
      FileOrderUnique(Saved(d, EMPTY_VERSION, [e], l), v[l]);
    }
  }
}
