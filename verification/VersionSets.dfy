/** VersionSet and its Builder (db/version_set.cc): installing versions, writing the manifest,
  and recovering from it. */
module VersionSets {
  import opened Wrappers
  import opened Keys
  import opened Coding
  import opened VersionModel
  import opened VersionBuilder
  import opened VersionEdits
  import opened Manifest
  import opened ManifestRecords
  import opened LogFormat
  import opened Log
  import Crc

  // ---------- the builder ----------

  ghost predicate AllInFileOrder(v: Version) {
    forall l :: 0 <= l < 7 ==> InFileOrder(v[l])
  }

  // The deletions of the first n entries at one level.
  function DeletedFirst(e: Edit, l: nat, n: nat): set<nat>
    requires n <= |e.deletedFiles|
  {
    set i | 0 <= i < n && e.deletedFiles[i].level == l :: e.deletedFiles[i].number
  }

  lemma DeletedFirstNext(e: Edit, l: nat, n: nat)
    requires n < |e.deletedFiles|
    ensures DeletedFirst(e, l, n + 1)
         == if e.deletedFiles[n].level == l then DeletedFirst(e, l, n) + {e.deletedFiles[n].number} else DeletedFirst(e, l, n)
  {
  }

  class Builder {
    const disk: Disk
    const base: Version
    var levels: seq<LevelFiles>

    ghost predicate Valid()
      reads this
    {
      && |levels| == 7 && AllInFileOrder(base)
      && forall l :: 0 <= l < 7 ==> InFileOrder(levels[l].addedFiles)
    }

    constructor (d: Disk, v: Version)
      requires AllInFileOrder(v)
      ensures Valid() && disk == d && base == v && forall l :: 0 <= l < 7 ==> levels[l] == NO_FILES
    {
      disk, base, levels := d, v, seq(7, _ => NO_FILES);
    }

    method DeleteFiles(e: Edit)
      requires Valid() && LevelsExist(e)
      modifies this
      ensures Valid()
      ensures forall l :: 0 <= l < 7 ==> levels[l] == WithDeletions(old(levels[l]), DeletedAt(e, l))
    {
      for i := 0 to |e.deletedFiles|
        invariant Valid()
        invariant forall l :: 0 <= l < 7 ==> levels[l] == WithDeletions(old(levels[l]), DeletedFirst(e, l, i))
      {
        var item := e.deletedFiles[i];
        forall l | 0 <= l < 7
          ensures DeletedFirst(e, l, i + 1)
               == if item.level == l then DeletedFirst(e, l, i) + {item.number} else DeletedFirst(e, l, i)
        {
          DeletedFirstNext(e, l, i);
        }
        levels := levels[item.level := WithDeletions(levels[item.level], {item.number})];
      }
      assert forall l :: DeletedFirst(e, l, |e.deletedFiles|) == DeletedAt(e, l);
    }

    method AddFiles(e: Edit)
      requires Valid() && LevelsExist(e)
      modifies this
      ensures Valid()
      ensures forall l :: 0 <= l < 7 ==> levels[l] == WithFiles(disk, old(levels[l]), e, l, |e.newFiles|)
    {
      for i := 0 to |e.newFiles|
        invariant Valid()
        invariant forall l :: 0 <= l < 7 ==> levels[l] == WithFiles(disk, old(levels[l]), e, l, i)
      {
        var level, f := e.newFiles[i].level, FileOf(disk, e.newFiles[i].file);
        InsertFileMembers(levels[level].addedFiles, f);
        levels := levels[level := WithFile(levels[level], f)];
      }
    }

    method Apply(e: Edit)
      requires Valid() && LevelsExist(e)
      modifies this
      ensures Valid()
      ensures forall l :: 0 <= l < 7 ==> levels[l] == AppliedTo(disk, old(levels[l]), e, l)
    {
      DeleteFiles(e);
      AddFiles(e);
    }

    method SaveLevel(level: nat) returns (files: Level)
      requires Valid() && level < 7
      ensures files == Merged(base[level], levels[level])
    {
      files := VersionBuilder.SaveTo(base[level], levels[level].addedFiles, levels[level].deletedFiles);
    }

    method SaveTo() returns (v: Version)
      requires Valid()
      ensures forall l :: 0 <= l < 7 ==> v[l] == Merged(base[l], levels[l])
    {
      var files: seq<Level> := [];
      for level := 0 to 7
        invariant |files| == level && forall l :: 0 <= l < level ==> files[l] == Merged(base[l], levels[l])
      {
        var saved := SaveLevel(level);
        files := files + [saved];
      }
      v := files;
    }
  }

  // ---------- the version set ----------

  // The file written so far, of these edits.
  ghost predicate Holds(log: Writer, crc: Checksum, edits: seq<Edit>)
    reads log
  {
    log.Valid() && log.crc == crc && log.dest == LogOf(AddRecordTo(crc), 0, Encoded(edits))
  }

  // The same, to be looked into only where Holds is written.
  ghost predicate IsManifest(log: Writer, crc: Checksum, edits: seq<Edit>)
    reads log
  {
    forall es {:trigger Holds(log, crc, es)} :: es == edits ==> Holds(log, crc, es)
  }

  ghost predicate CrcTables(t: Crc.Tables, crc: Checksum) {
    Crc.Extends(t) && MaskedCrc(crc)
  }

  ghost predicate ForCrc(t: Crc.Tables, crc: Checksum) {
    forall u {:trigger CrcTables(u, crc)} :: u == t ==> CrcTables(u, crc)
  }

  // A reader of this file; to be looked into only where ReaderOf is written.
  ghost predicate ReaderOf(reader: Reader, crc: Checksum, file: Bytes)
    reads reader
  {
    reader.Valid() && reader.crc == crc && reader.file == file && 0 <= reader.Pos() <= |file|
  }

  ghost predicate ReadsFile(reader: Reader, crc: Checksum, file: Bytes)
    reads reader
  {
    forall f {:trigger ReaderOf(reader, crc, f)} :: f == file ==> ReaderOf(reader, crc, f)
  }

  method NewReader(t: Crc.Tables, ghost crc: Checksum, file: Bytes) returns (reader: Reader)
    requires ForCrc(t, crc)
    ensures fresh(reader) && ReadsFile(reader, crc, file) && reader.Pos() == 0 && reader.reports == 0
    ensures ReadSoFar(crc, file, 0, 0, [])
  {
    assert CrcTables(t, crc);
    reader := new Reader(file, crc);
    assert [] + ReadAll(crc, file, 0).records == ReadAll(crc, file, 0).records;
  }

  method NextRecord(reader: Reader, ghost crc: Checksum, ghost file: Bytes, ghost read: seq<Bytes>)
    returns (record: Option<Bytes>)
    requires ReadsFile(reader, crc, file) && reader.reports == 0 && ReadSoFar(crc, file, reader.Pos(), 0, read)
    modifies reader
    ensures ReadsFile(reader, crc, file) && reader.Pos() <= |file|
    ensures record.None? ==> ReadAll(crc, file, 0) == FileRead(read, reader.reports)
    ensures record.Some? ==> reader.Pos() > old(reader.Pos())
    ensures record.Some? ==> ReadSoFar(crc, file, reader.Pos(), reader.reports, read + [record.value])
  {
    assert ReaderOf(reader, crc, file);
    ReadNext(crc, file, reader.Pos(), 0, read);
    record := reader.ReadRecord();
  }

  method NewLog(t: Crc.Tables, ghost crc: Checksum) returns (log: Writer)
    requires ForCrc(t, crc)
    ensures fresh(log) && IsManifest(log, crc, [])
  {
    assert CrcTables(t, crc);
    log := new Writer([], t, crc);
  }

  lemma EncodedNext(edits: seq<Edit>, e: Edit)
    ensures Encoded(edits + [e]) == Encoded(edits) + [EncodeEdit(e)]
  {
  }

  lemma RecordsGrow(crc: Checksum, records: seq<Bytes>, record: Bytes)
    ensures LogOf(AddRecordTo(crc), 0, records + [record])
         == LogOf(AddRecordTo(crc), 0, records) + Fragments(crc, |LogOf(AddRecordTo(crc), 0, records)|, record, true)
  {
    LogGrows(AddRecordTo(crc), 0, records, record);
  }

  lemma ManifestGrows(crc: Checksum, edits: seq<Edit>, e: Edit)
    ensures LogOf(AddRecordTo(crc), 0, Encoded(edits + [e]))
         == LogOf(AddRecordTo(crc), 0, Encoded(edits))
            + Fragments(crc, |LogOf(AddRecordTo(crc), 0, Encoded(edits))|, EncodeEdit(e), true)
  {
    EncodedNext(edits, e);
    RecordsGrow(crc, Encoded(edits), EncodeEdit(e));
  }

  method WriteRecord(log: Writer, edit: VersionEdit, ghost crc: Checksum, ghost edits: seq<Edit>)
    requires IsManifest(log, crc, edits)
    modifies log
    ensures IsManifest(log, crc, edits + [edit.Value()])
  {
    ghost var e := edit.Value();
    assert Holds(log, crc, edits);
    var record := edit.EncodeTo([]);
    assert [] + EncodeEdit(e) == EncodeEdit(e);
    ManifestGrows(crc, edits, e);
    log.AddRecord(record);
  }

  // What LogAndApply puts on an edit before it is written.
  function Completed(e: Edit, logNumber: uint64, prevLogNumber: uint64, nextFile: uint64, lastSequence: uint64): Edit {
    e.(logNumber := if e.logNumber.Some? then e.logNumber else Some(logNumber),
       prevLogNumber := if e.prevLogNumber.Some? then e.prevLogNumber else Some(prevLogNumber),
       nextFileNumber := Some(nextFile), lastSequence := Some(lastSequence))
  }

  lemma CompletedFits(d: Disk, v: Version, e: Edit, after: Edit)
    requires TrueEdit(d, e) && NewFiles(d, v, e) && after == e.(logNumber := after.logNumber,
      prevLogNumber := after.prevLogNumber, nextFileNumber := after.nextFileNumber, lastSequence := after.lastSequence)
    ensures TrueEdit(d, after) && NewFiles(d, v, after) && NamedEdit(d, after) && LevelsExist(after)
  {
    TrueIsNamed(d, after);
    forall l | 0 <= l < 7
      ensures NewAt(d, v[l], after, l)
    {
      assert NewAt(d, v[l], e, l) && AddedAt(d, after, l) == AddedAt(d, e, l);
    }
    forall i | 0 <= i < |e.newFiles|
      ensures e.newFiles[i].level < 7
    {
      assert ValidAdded(e.newFiles[i]);
    }
    forall i | 0 <= i < |e.deletedFiles|
      ensures e.deletedFiles[i].level < 7
    {
      assert ValidDeleted(e.deletedFiles[i]);
    }
    forall i | 0 <= i < |e.compactPointers|
      ensures e.compactPointers[i].level < 7
    {
      assert ValidPointer(e.compactPointers[i]);
    }
  }

  lemma SetPointersAgain(before: seq<Slice>, e: Edit, after: seq<Slice>)
    requires PointersSet(before, e, after)
    ensures PointersSet(after, e, after)
  {
    forall l | 0 <= l < 7
      ensures after[l] == PointerAfter(after[l], e.compactPointers, l, |e.compactPointers|)
    {
      SetAgain(before[l], e.compactPointers, l, |e.compactPointers|);
    }
  }

  // In 64 bits.
  function OneUp(n: uint64): uint64 {
    (n + 1) % TWO64
  }

  class VersionSet {
    const disk: Disk
    const comparator: Slice
    const tables: Crc.Tables
    ghost const crc: Checksum
    var current: Version
    // Empty where there is none.
    var compactPointer: seq<Slice>
    var nextFileNumber: uint64
    var lastSequence: uint64
    var logNumber: uint64
    var prevLogNumber: uint64
    var manifestFileNumber: uint64
    var descriptorLog: Writer?
    // The records of the manifest, and the version after each.
    ghost var edits: seq<Edit>
    ghost var versions: seq<Version>

    ghost predicate Valid()
      reads this, descriptorLog
    {
      && |compactPointer| == 7 && Recordable(disk, current) && ForCrc(tables, crc)
      && (descriptorLog != null ==>
            && IsManifest(descriptorLog, crc, edits)
            && Kept(disk, comparator, edits, versions, compactPointer)
            && |edits| == |versions| > 1 && versions[|versions| - 1] == current
            && edits[|edits| - 1].logNumber == Some(logNumber) && edits[|edits| - 1].prevLogNumber == Some(prevLogNumber))
    }

    constructor (d: Disk, name: Slice, t: Crc.Tables, ghost checksum: Checksum)
      requires ForCrc(t, checksum)
      ensures Valid() && disk == d && comparator == name && crc == checksum && descriptorLog == null
      ensures current == EMPTY_VERSION && compactPointer == seq(7, _ => [])
      ensures nextFileNumber == 2 && lastSequence == 0 && logNumber == 0 && prevLogNumber == 0
    {
      disk, comparator, tables, crc := d, name, t, checksum;
      current, compactPointer := EMPTY_VERSION, seq(7, _ => []);
      nextFileNumber, lastSequence, logNumber, prevLogNumber, manifestFileNumber := 2, 0, 0, 0, 0;
      descriptorLog := null;
      edits, versions := [], [];
    }

    // The part of Builder::Apply that concerns the set.
    method SetPointers(e: Edit)
      requires |compactPointer| == 7 && LevelsExist(e)
      modifies this`compactPointer
      ensures PointersSet(old(compactPointer), e, compactPointer)
    {
      for i := 0 to |e.compactPointers|
        invariant |compactPointer| == 7
        invariant forall l :: 0 <= l < 7 ==> compactPointer[l] == PointerAfter(old(compactPointer[l]), e.compactPointers, l, i)
      {
        compactPointer := compactPointer[e.compactPointers[i].level := e.compactPointers[i].key];
      }
    }

    // The parts of the edit that WriteSnapshot writes.
    method SavePointers(edit: VersionEdit)
      requires |compactPointer| == 7 && edit.compactPointers == []
      modifies edit`compactPointers
      ensures edit.compactPointers == PointersOf(compactPointer, 7)
    {
      for level := 0 to 7
        invariant edit.compactPointers == PointersOf(compactPointer, level)
      {
        if compactPointer[level] != [] {
          edit.compactPointers := edit.compactPointers + [Pointer(level, compactPointer[level])];
        }
      }
    }

    method SaveLevel(edit: VersionEdit, level: nat)
      requires level < 7 && forall i :: 0 <= i < |current[level]| ==> Storable(disk, current[level][i])
      modifies edit`newFiles
      ensures edit.newFiles == old(edit.newFiles) + AddedLevel(disk, current[level], level, |current[level]|)
    {
      var files := current[level];
      for i := 0 to |files|
        invariant edit.newFiles == old(edit.newFiles) + AddedLevel(disk, files, level, i)
      {
        edit.newFiles := edit.newFiles + [Added(level, StoredOf(disk, files[i]))];
      }
    }

    method SaveFiles(edit: VersionEdit)
      requires AllStorable(disk, current) && edit.newFiles == []
      modifies edit`newFiles
      ensures edit.newFiles == SnapshotFiles(disk, current, 7)
    {
      for level := 0 to 7
        invariant edit.newFiles == SnapshotFiles(disk, current, level)
      {
        SaveLevel(edit, level);
      }
    }

    method Snapshot() returns (edit: VersionEdit)
      requires |compactPointer| == 7 && AllStorable(disk, current)
      ensures fresh(edit) && edit.Value() == SnapshotEdit(disk, comparator, PointersOf(compactPointer, 7), current)
    {
      edit := new VersionEdit();
      edit.comparator := Some(comparator);
      SavePointers(edit);
      SaveFiles(edit);
    }

    method WriteSnapshot(log: Writer)
      requires |compactPointer| == 7 && AllStorable(disk, current) && IsManifest(log, crc, [])
      modifies log
      ensures IsManifest(log, crc, [SnapshotEdit(disk, comparator, PointersOf(compactPointer, 7), current)])
    {
      var edit := Snapshot();
      WriteRecord(log, edit, crc, []);
      assert [] + [edit.Value()] == [edit.Value()];
    }

    // The new version, and the new pointers.
    method NextVersion(e: Edit) returns (v: Version)
      requires |compactPointer| == 7 && AllInFileOrder(current) && LevelsExist(e)
      modifies this`compactPointer
      ensures Installed(disk, current, e, v) && PointersSet(old(compactPointer), e, compactPointer)
    {
      var builder := new Builder(disk, current);
      SetPointers(e);
      builder.Apply(e);
      forall l: nat | l < 7 ensures builder.levels[l] == AppliedAll(disk, [e], l, 1) {
        assert AppliedAll(disk, [e], l, 0) == NO_FILES;
      }
      v := builder.SaveTo();
    }

    // Every number that the edit does not have is filled in.
    method FillNumbers(edit: VersionEdit)
      modifies edit
      ensures edit.Value() == Completed(old(edit.Value()), logNumber, prevLogNumber, nextFileNumber, lastSequence)
    {
      if edit.logNumber.None? {
        edit.logNumber := Some(logNumber);
      }
      if edit.prevLogNumber.None? {
        edit.prevLogNumber := Some(prevLogNumber);
      }
      edit.nextFileNumber, edit.lastSequence := Some(nextFileNumber), Some(lastSequence);
    }

    // A new descriptor log, with a snapshot of the current version, in the first call.
    method OpenDescriptor()
      requires |compactPointer| == 7 && Recordable(disk, current) && ForCrc(tables, crc)
      requires descriptorLog == null
      modifies this`descriptorLog, this`edits, this`versions
      ensures descriptorLog != null && fresh(descriptorLog) && IsManifest(descriptorLog, crc, edits)
      ensures Kept(disk, comparator, edits, versions, compactPointer) && versions == [current]
      ensures edits == [SnapshotEdit(disk, comparator, PointersOf(compactPointer, 7), current)]
    {
      var log := NewLog(tables, crc);
      WriteSnapshot(log);
      RecordedFirst(disk, comparator, compactPointer, current);
      edits := [SnapshotEdit(disk, comparator, PointersOf(compactPointer, 7), current)];
      versions := [current];
      descriptorLog := log;
    }

    // An edit that can be installed now: true of the files, with files new to their levels,
    // and with a log number that is in use.
    ghost predicate Fits(e: Edit)
      reads this`current, this`logNumber, this`nextFileNumber
    {
      && TrueEdit(disk, e) && NewFiles(disk, current, e) && e.comparator == None
      && (e.logNumber.Some? ==> logNumber <= e.logNumber.value < nextFileNumber)
    }

    // The edit is completed, and the version after it is built.
    method Prepare(edit: VersionEdit) returns (v: Version)
      requires |compactPointer| == 7 && Recordable(disk, current) && Fits(edit.Value())
      modifies edit, this`compactPointer
      ensures edit.Value() == Completed(old(edit.Value()), logNumber, prevLogNumber, nextFileNumber, lastSequence)
      ensures Installed(disk, current, edit.Value(), v) && Recordable(disk, v)
      ensures PointersSet(old(compactPointer), edit.Value(), compactPointer)
      ensures ValidRecord(comparator, edit.Value()) && NamedEdit(disk, edit.Value()) && HasNumbers(edit.Value())
      ensures NewFiles(disk, current, edit.Value())
    {
      FillNumbers(edit);
      CompletedFits(disk, current, old(edit.Value()), edit.Value());
      v := NextVersion(edit.Value());
      InstalledRecordable(disk, current, edit.Value(), v);
    }

    method LogAndApply(edit: VersionEdit)
      requires Valid() && Fits(edit.Value())
      modifies this, edit, descriptorLog
      ensures Valid() && descriptorLog != null && (old(descriptorLog) == null ==> fresh(descriptorLog))
      ensures old(descriptorLog) != null ==> descriptorLog == old(descriptorLog)
      ensures edit.Value() == old(Completed(edit.Value(), logNumber, prevLogNumber, nextFileNumber, lastSequence))
      ensures Installed(disk, old(current), edit.Value(), current)
      ensures PointersSet(old(compactPointer), edit.Value(), compactPointer)
      ensures logNumber == edit.logNumber.value && prevLogNumber == edit.prevLogNumber.value
      ensures nextFileNumber == old(nextFileNumber) && lastSequence == old(lastSequence)
      ensures versions == (if old(descriptorLog) == null then [old(current)] else old(versions)) + [current]
      ensures edits[|edits| - 1] == edit.Value() && |edits| == |versions|
    {
      ghost var before := compactPointer;
      var v := Prepare(edit);
      if descriptorLog == null {
        OpenDescriptor();
        SetPointersAgain(before, edit.Value(), compactPointer);
        before := compactPointer;
      }
      Install(edit, v, before);
    }

    // The record is written, and the version installed.
    method Install(edit: VersionEdit, v: Version, ghost before: seq<Slice>)
      requires descriptorLog != null && IsManifest(descriptorLog, crc, edits)
      requires Kept(disk, comparator, edits, versions, before)
      requires |edits| == |versions| > 0 && versions[|versions| - 1] == current
      requires ValidRecord(comparator, edit.Value()) && NamedEdit(disk, edit.Value()) && HasNumbers(edit.Value())
      requires NewFiles(disk, current, edit.Value()) && Installed(disk, current, edit.Value(), v) && Recordable(disk, v)
      requires PointersSet(before, edit.Value(), compactPointer)
      modifies this`current, this`logNumber, this`prevLogNumber, this`edits, this`versions, descriptorLog
      ensures IsManifest(descriptorLog, crc, edits) && Kept(disk, comparator, edits, versions, compactPointer)
      ensures current == v && logNumber == edit.logNumber.value && prevLogNumber == edit.prevLogNumber.value
      ensures edits == old(edits) + [edit.Value()] && versions == old(versions) + [v]
    {
      WriteRecord(descriptorLog, edit, crc, edits);
      RecordedNext(disk, comparator, edits, versions, before, edit.Value(), v, compactPointer);
      edits, versions := edits + [edit.Value()], versions + [v];
      current, logNumber, prevLogNumber := v, edit.logNumber.value, edit.prevLogNumber.value;
    }

    // ---------- recovery ----------

    // One record: None if it cannot be decoded, or was written with another comparator.
    method ReadEdit(record: Bytes) returns (e: Option<Edit>)
      ensures e == if Accepted(comparator, record) then Some(EditOf(record)) else None
      ensures e.Some? ==> LevelsExist(e.value)
    {
      var edit := new VersionEdit();
      var ok := edit.DecodeFrom(record);
      DecodedLevelsExist(record, NO_EDIT);
      if !ok || (edit.comparator.Some? && edit.comparator.value != comparator) {
        return None;
      }
      e := Some(edit.Value());
    }

    // A record is taken into the builder, unless it is not accepted.
    method ApplyRecord(record: Bytes, builder: Builder, numbers: Numbers, ghost read: seq<Bytes>)
      returns (ok: bool, newer: Numbers)
      requires builder.Valid() && builder.disk == disk
      requires Replayed(disk, DecodedEdits(read), builder.levels, compactPointer, numbers)
      modifies builder, this`compactPointer
      ensures builder.Valid() && (ok <==> Accepted(comparator, record))
      ensures ok ==> Replayed(disk, DecodedEdits(read + [record]), builder.levels, compactPointer, newer)
    {
      var edit := ReadEdit(record);
      if edit.None? {
        return false, numbers;
      }
      ghost var levels, pointers := builder.levels, compactPointer;
      SetPointers(edit.value);
      builder.Apply(edit.value);
      ReplayedNext(disk, DecodedEdits(read), edit.value, levels, builder.levels, pointers, compactPointer, numbers);
      DecodedNext(read, record);
      ok, newer := true, WithNumbers(numbers, edit.value);
    }

    // Once around the loop of Recover, as long as the status is fine.
    method ReplayNext(reader: Reader, builder: Builder, numbers: Numbers, ghost file: Bytes, ghost read: seq<Bytes>)
      returns (more: bool, ok: bool, newer: Numbers, ghost newRead: seq<Bytes>)
      requires ReadsFile(reader, crc, file) && builder.Valid() && builder.disk == disk && reader.reports == 0
      requires ReadSoFar(crc, file, reader.Pos(), 0, read) && AllAccepted(comparator, read)
      requires Replayed(disk, DecodedEdits(read), builder.levels, compactPointer, numbers)
      modifies reader, builder, this`compactPointer
      ensures ReadsFile(reader, crc, file) && builder.Valid()
      ensures more ==> ok && old(reader.Pos()) < reader.Pos() <= |file| && reader.reports == 0
      ensures !ok ==> !Recoverable(comparator, ReadAll(crc, file, 0))
      ensures ok ==> AllAccepted(comparator, newRead)
      ensures ok ==> Replayed(disk, DecodedEdits(newRead), builder.levels, compactPointer, newer)
      ensures more ==> ReadSoFar(crc, file, reader.Pos(), 0, newRead)
      ensures ok && !more ==> ReadAll(crc, file, 0) == FileRead(newRead, 0)
    {
      var record := NextRecord(reader, crc, file, read);
      newer, newRead := numbers, read;
      if record.None? || reader.reports > 0 {
        more, ok := false, reader.reports == 0;
      } else {
        ok, newer := ApplyRecord(record.value, builder, numbers, read);
        more, newRead := ok, read + [record.value];
        if !ok {
          NotAccepted(comparator, crc, file, reader.Pos(), 0, read, record.value);
        }
      }
    }

    // The loop of Recover.
    method ReplayAll(file: Bytes, builder: Builder) returns (ok: bool, numbers: Numbers, ghost read: seq<Bytes>)
      requires ForCrc(tables, crc) && builder.Valid() && builder.disk == disk
      requires Replayed(disk, [], builder.levels, compactPointer, NO_NUMBERS)
      modifies builder, this`compactPointer
      ensures !ok ==> !Recoverable(comparator, ReadAll(crc, file, 0))
      ensures ok ==> ReadAll(crc, file, 0) == FileRead(read, 0) && AllAccepted(comparator, read)
      ensures ok ==> Replayed(disk, DecodedEdits(read), builder.levels, compactPointer, numbers)
      ensures builder.Valid()
    {
      var reader := NewReader(tables, crc, file);
      numbers, read := NO_NUMBERS, [];
      assert DecodedEdits([]) == [];
      var more := true;
      ok := true;
      while more
        invariant ReadsFile(reader, crc, file) && fresh(reader) && builder.Valid()
        invariant more ==> ok && reader.reports == 0 && reader.Pos() <= |file| && ReadSoFar(crc, file, reader.Pos(), 0, read)
        invariant !ok ==> !Recoverable(comparator, ReadAll(crc, file, 0))
        invariant ok ==> AllAccepted(comparator, read)
        invariant ok ==> Replayed(disk, DecodedEdits(read), builder.levels, compactPointer, numbers)
        invariant ok && !more ==> ReadAll(crc, file, 0) == FileRead(read, 0)
        decreases more, |file| - reader.Pos()
      {
        more, ok, numbers, read := ReplayNext(reader, builder, numbers, file, read);
      }
    }

    // The end of Recover: the version of the builder becomes the current one.
    method InstallRecovered(builder: Builder, numbers: Numbers, ghost es: seq<Edit>)
      requires builder.Valid() && builder.disk == disk && builder.base == EMPTY_VERSION
      requires Replayed(disk, es, builder.levels, compactPointer, numbers) && Complete(numbers)
      modifies this`current, this`nextFileNumber, this`manifestFileNumber, this`lastSequence, this`logNumber,
               this`prevLogNumber
      ensures RecoveredFrom(es)
    {
      current := builder.SaveTo();
      manifestFileNumber := numbers.nextFile.value;
      nextFileNumber := OneUp(numbers.nextFile.value);
      lastSequence, logNumber := numbers.lastSequence.value, numbers.log.value;
      prevLogNumber := if numbers.prevLog.Some? then numbers.prevLog.value else 0;
    }

    // Recovering from the bytes of a manifest file.
    method Recover(file: Bytes) returns (ok: bool)
      requires Valid() && descriptorLog == null && current == EMPTY_VERSION && compactPointer == seq(7, _ => [])
      modifies this
      ensures ok <==> Recoverable(comparator, ReadAll(crc, file, 0))
      ensures !ok ==> current == old(current)
      ensures ok ==> RecoveredFrom(DecodedEdits(ReadAll(crc, file, 0).records))
      ensures descriptorLog == null
    {
      var builder := new Builder(disk, current);
      EmptyReplay(disk, builder.levels, compactPointer);
      var numbers;
      ghost var read;
      ok, numbers, read := ReplayAll(file, builder);
      // There must be a next file number, a log number and a last sequence number.
      if ok && !Complete(numbers) {
        ok := false;
      }
      if ok {
        InstallRecovered(builder, numbers, DecodedEdits(read));
      }
    }

    ghost predicate RecoveredFrom(es: seq<Edit>)
      reads this`current, this`compactPointer, this`nextFileNumber, this`manifestFileNumber, this`lastSequence,
            this`logNumber, this`prevLogNumber
    {
      var ns := LatestNumbers(es, |es|);
      && ns.nextFile.Some? && ns.log.Some? && ns.lastSequence.Some?
      && Says(disk, es, current) && PointersTold(es, compactPointer)
      && manifestFileNumber == ns.nextFile.value && nextFileNumber == OneUp(ns.nextFile.value)
      && lastSequence == ns.lastSequence.value && logNumber == ns.log.value
      && prevLogNumber == (if ns.prevLog.Some? then ns.prevLog.value else 0)
    }
  }

  lemma EmptyReplay(d: Disk, levels: seq<LevelFiles>, pointers: seq<Slice>)
    requires |levels| == 7 && (forall l :: 0 <= l < 7 ==> levels[l] == NO_FILES) && pointers == seq(7, _ => [])
    ensures Replayed(d, [], levels, pointers, NO_NUMBERS)
  {
  }

  lemma SaysOne(d: Disk, es: seq<Edit>, v: Version, w: Version)
    requires Says(d, es, v) && Says(d, es, w)
    ensures v == w
  {
    forall l | 0 <= l < 7
      ensures v[l] == w[l]
    {
      assert Saved(d, EMPTY_VERSION, es, l) == v[l];
    }
  }

  lemma ToldOne(es: seq<Edit>, ps: seq<Slice>, qs: seq<Slice>)
    requires PointersTold(es, ps) && PointersTold(es, qs)
    ensures ps == qs
  {
    forall l | 0 <= l < 7
      ensures ps[l] == qs[l]
    {
      assert PointerAll(es, l, |es|) == ps[l];
    }
  }

  // What was recovered is what the set was after its k-th record, with the numbers of then.
  ghost predicate IsAsOf(recovered: VersionSet, running: VersionSet, k: nat)
    reads recovered, running
    requires 2 <= k <= |running.edits| == |running.versions|
  {
    var e := running.edits[k - 1];
    && recovered.current == running.versions[k - 1]
    && e.nextFileNumber == Some(recovered.manifestFileNumber) && e.lastSequence == Some(recovered.lastSequence)
    && e.logNumber == Some(recovered.logNumber) && e.prevLogNumber == Some(recovered.prevLogNumber)
    && recovered.nextFileNumber == OneUp(recovered.manifestFileNumber)
  }

  lemma Compared(recovered: VersionSet, running: VersionSet, k: nat, es: seq<Edit>)
    requires running.disk == recovered.disk && 2 <= k <= |running.edits| == |running.versions|
    requires Says(running.disk, es, running.versions[k - 1]) && HasNumbers(running.edits[k - 1])
    requires LatestNumbers(es, |es|) == NumbersOf(running.edits[k - 1]) && recovered.RecoveredFrom(es)
    ensures IsAsOf(recovered, running, k)
  {
    SaysOne(running.disk, es, recovered.current, running.versions[k - 1]);
  }

  lemma Matches(recovered: VersionSet, running: VersionSet, k: nat, read: FileRead)
    requires running.disk == recovered.disk && 2 <= k <= |running.edits| == |running.versions|
    requires RecoversTo(running.disk, running.comparator, running.edits, running.versions, k, read)
    requires PointersTold(running.edits, running.compactPointer)
    requires recovered.RecoveredFrom(DecodedEdits(read.records))
    ensures IsAsOf(recovered, running, k) && |recovered.compactPointer| == 7 && Recordable(running.disk, recovered.current)
    ensures k == |running.edits| ==> recovered.compactPointer == running.compactPointer
  {
    Compared(recovered, running, k, running.edits[..k]);
    if k == |running.edits| {
      assert running.edits[..k] == running.edits;
      ToldOne(running.edits, recovered.compactPointer, running.compactPointer);
    }
  }

  lemma WholeFile(add: (nat, Bytes) -> Bytes, records: seq<Bytes>, file: Bytes)
    requires file == LogOf(add, 0, records)
    ensures Whole(add, 0, records, |file|) == |records|
  {
    WholeOfAll(add, 0, records);
  }

  // The file of a running set, as far as it was written.
  lemma WrittenReads(running: VersionSet, file: Bytes)
    requires running.Valid() && running.descriptorLog != null && file <= running.descriptorLog.dest
    ensures RecoversTo(running.disk, running.comparator, running.edits, running.versions,
                       Whole(AddRecordTo(running.crc), 0, Encoded(running.edits), |file|), ReadAll(running.crc, file, 0))
    ensures file == running.descriptorLog.dest ==>
              Whole(AddRecordTo(running.crc), 0, Encoded(running.edits), |file|) == |running.edits|
  {
    assert Holds(running.descriptorLog, running.crc, running.edits);
    CrashedManifest(running.disk, running.comparator, running.crc, running.edits, running.versions,
                    running.compactPointer, file);
    if file == running.descriptorLog.dest {
      WholeFile(AddRecordTo(running.crc), Encoded(running.edits), file);
    }
  }

  // A new set recovers from the manifest that a running set has written, as far as it got to
  // the file before a crash. Recovery succeeds exactly if an edit after the snapshot is whole,
  // and gives the version of the last whole edit, list by list; from the whole file it gives
  // the current version, the compaction pointers and the log numbers of the running set. The
  // recovered set is valid: it can go on with edits of its own.
  method Reopen(running: VersionSet, file: Bytes) returns (recovered: VersionSet, ok: bool)
    requires running.Valid() && running.descriptorLog != null && file <= running.descriptorLog.dest
    ensures var k := Whole(AddRecordTo(running.crc), 0, Encoded(running.edits), |file|);
            (ok <==> k >= 2) && (ok ==> IsAsOf(recovered, running, k))
    ensures fresh(recovered) && (ok ==> recovered.Valid() && recovered.disk == running.disk)
    ensures file == running.descriptorLog.dest ==>
              && ok && recovered.current == running.current && recovered.compactPointer == running.compactPointer
              && recovered.logNumber == running.logNumber && recovered.prevLogNumber == running.prevLogNumber
  {
    ghost var k := Whole(AddRecordTo(running.crc), 0, Encoded(running.edits), |file|);
    ghost var read := ReadAll(running.crc, file, 0);
    WrittenReads(running, file);
    KeptPointers(running.disk, running.comparator, running.edits, running.versions, running.compactPointer);
    recovered, ok := RecoverNew(running, file, read);
    if ok {
      Matches(recovered, running, k, read);
    }
  }

  method RecoverNew(running: VersionSet, file: Bytes, ghost read: FileRead) returns (recovered: VersionSet, ok: bool)
    requires ForCrc(running.tables, running.crc) && read == ReadAll(running.crc, file, 0)
    ensures fresh(recovered) && recovered.disk == running.disk && recovered.descriptorLog == null
    ensures ForCrc(recovered.tables, recovered.crc) && (ok <==> Recoverable(running.comparator, read))
    ensures ok ==> recovered.RecoveredFrom(DecodedEdits(read.records))
  {
    recovered := new VersionSet(running.disk, running.comparator, running.tables, running.crc);
    ok := recovered.Recover(file);
  }
}
