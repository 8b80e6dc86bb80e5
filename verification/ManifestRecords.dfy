/** What the records of a manifest say: compaction pointers, numbers, and the version after
  each record (db/version_set.cc). */
module ManifestRecords {
  import opened Wrappers
  import opened Keys
  import opened Coding
  import opened VersionModel
  import opened VersionBuilder
  import opened VersionEdits
  import opened Manifest
  import opened LogFormat

  // ---------- compaction pointers ----------

  // The pointer of a level after the first n of these settings.
  function PointerAfter(p: Slice, items: seq<Pointer>, level: nat, n: nat): Slice
    requires n <= |items|
  {
    if n == 0 then p
    else if items[n - 1].level == level then items[n - 1].key
    else PointerAfter(p, items, level, n - 1)
  }

  function PointerAll(edits: seq<Edit>, level: nat, n: nat): Slice
    requires n <= |edits|
  {
    if n == 0 then []
    else PointerAfter(PointerAll(edits, level, n - 1), edits[n - 1].compactPointers, level, |edits[n - 1].compactPointers|)
  }

  // The pointers that WriteSnapshot sets, for the first n levels.
  function PointersOf(ps: seq<Slice>, n: nat): seq<Pointer>
    requires n <= 7 == |ps|
  {
    if n == 0 then []
    else PointersOf(ps, n - 1) + (if ps[n - 1] == [] then [] else [Pointer(n - 1, ps[n - 1])])
  }

  lemma {:induction false} PointerFirst(p: Slice, items: seq<Pointer>, more: seq<Pointer>, level: nat, n: nat)
    requires n <= |items|
    ensures PointerAfter(p, items + more, level, n) == PointerAfter(p, items, level, n)
    decreases n
  {
    if n > 0 {
      PointerFirst(p, items, more, level, n - 1);
    }
  }

  lemma {:induction false} PointersAreSet(ps: seq<Slice>, n: nat, level: nat)
    requires n <= 7 == |ps| && level < 7
    ensures PointerAfter([], PointersOf(ps, n), level, |PointersOf(ps, n)|) == if level < n then ps[level] else []
    decreases n
  {
    if n > 0 {
      PointersAreSet(ps, n - 1, level);
      var front := PointersOf(ps, n - 1);
      if ps[n - 1] == [] {
        assert front + [] == front;
      } else {
        PointerFirst([], front, [Pointer(n - 1, ps[n - 1])], level, |front|);
      }
    }
  }

  lemma {:induction false} SetAgain(p: Slice, items: seq<Pointer>, level: nat, n: nat)
    requires n <= |items|
    ensures PointerAfter(PointerAfter(p, items, level, n), items, level, n) == PointerAfter(p, items, level, n)
    decreases n
  {
    if n > 0 && items[n - 1].level != level {
      SetAgain(p, items, level, n - 1);
    }
  }

  lemma {:induction false} PointerAllFirst(edits: seq<Edit>, more: seq<Edit>, level: nat, n: nat)
    requires n <= |edits|
    ensures PointerAll(edits + more, level, n) == PointerAll(edits, level, n)
    decreases n
  {
    if n > 0 {
      PointerAllFirst(edits, more, level, n - 1);
    }
  }

  // ---------- levels of an edit ----------

  predicate LevelsExist(e: Edit) {
    && (forall i :: 0 <= i < |e.compactPointers| ==> e.compactPointers[i].level < 7)
    && (forall i :: 0 <= i < |e.deletedFiles| ==> e.deletedFiles[i].level < 7)
    && (forall i :: 0 <= i < |e.newFiles| ==> e.newFiles[i].level < 7)
  }

  lemma {:induction false} InsertedLevels(ds: seq<Deleted>, d: Deleted)
    requires d.level < 7 && forall i :: 0 <= i < |ds| ==> ds[i].level < 7
    ensures forall i :: 0 <= i < |InsertDeleted(ds, d)| ==> InsertDeleted(ds, d)[i].level < 7
  {
    if ds != [] && !DeletedLess(d, ds[0]) && d != ds[0] {
      InsertedLevels(ds[1..], d);
    }
  }

  lemma AtLevelExists(tag: nat, level: nat, input: Bytes, e: Edit)
    requires level < 7 && LevelsExist(e)
    ensures DecodeAtLevel(tag, level, input, e).Some? ==> LevelsExist(DecodeAtLevel(tag, level, input, e).value.edit)
  {
    if tag == DELETED_FILE {
      match DecodeVarint64(input)
      case None =>
      case Some(d) => InsertedLevels(e.deletedFiles, Deleted(level, d.value));
    }
  }

  lemma FieldLevelsExist(tag: nat, input: Bytes, e: Edit)
    requires LevelsExist(e)
    ensures DecodeField(tag, input, e).Some? ==> LevelsExist(DecodeField(tag, input, e).value.edit)
  {
    if tag == COMPACT_POINTER || tag == DELETED_FILE || tag == NEW_FILE {
      match GetLevel(input)
      case None =>
      case Some(d) => AtLevelExists(tag, d.value, d.rest, e);
    }
  }

  // A decoded edit speaks of real levels only.
  lemma {:induction false} DecodedLevelsExist(input: Bytes, e: Edit)
    requires LevelsExist(e)
    ensures DecodeFields(input, e).Some? ==> LevelsExist(DecodeFields(input, e).value)
    decreases |input|
  {
    match DecodeFrom(input, 0, 0)
    case None =>
    case Some(d) =>
      VarintShortens(input, 0, 0);
      FieldShortens(d.value, d.rest, e);
      FieldLevelsExist(d.value, d.rest, e);
      match DecodeField(d.value, d.rest, e)
      case None =>
      case Some(p) => DecodedLevelsExist(p.rest, p.edit);
  }

  // ---------- what is recorded ----------

  // The edit speaks of files as they are, in a form that can be written.
  ghost predicate TrueEdit(d: Disk, e: Edit) {
    && ValidEdit(e)
    && forall i :: 0 <= i < |e.newFiles| ==> TrueFile(d, e.newFiles[i].file)
  }

  predicate TrueFile(d: Disk, f: StoredFile) {
    var g := d.files(f.number);
    g.number == f.number && Storable(d, g) && f == StoredOf(d, g)
  }

  lemma TrueIsNamed(d: Disk, e: Edit)
    requires TrueEdit(d, e)
    ensures NamedEdit(d, e)
    ensures forall l, f :: f in AddedAt(d, e, l) ==> Storable(d, f) && d.files(f.number) == f
  {
    forall i | 0 <= i < |e.newFiles|
      ensures NamedFile(d, e.newFiles[i].file) && Storable(d, FileOf(d, e.newFiles[i].file))
    {
      assert TrueFile(d, e.newFiles[i].file);
      StoredIsBack(d, d.files(e.newFiles[i].file.number));
    }
  }

  // A version made from recordable files is recordable.
  lemma InstalledRecordable(d: Disk, v: Version, e: Edit, w: Version)
    requires Recordable(d, v) && TrueEdit(d, e) && NewFiles(d, v, e) && Installed(d, v, e, w)
    ensures Recordable(d, w)
  {
    TrueIsNamed(d, e);
    forall l | 0 <= l < 7
      ensures InFileOrder(w[l]) && Named(d.files, AsSet(w[l])) && forall f :: f in w[l] ==> Storable(d, f)
    {
      assert NewAt(d, v[l], e, l);
      OneVersionOn(d, v, e, l);
      forall f | f in w[l]
        ensures Storable(d, f) && d.files(f.number) == f
      {
        assert f in AsSet(w[l]);
        if f in v[l] {
          assert f in AsSet(v[l]);
        }
      }
    }
  }

  function Encoded(edits: seq<Edit>): (r: seq<Bytes>)
    ensures |r| == |edits| && forall i :: 0 <= i < |edits| ==> r[i] == EncodeEdit(edits[i])
  {
    seq(|edits|, i requires 0 <= i < |edits| => EncodeEdit(edits[i]))
  }

  ghost predicate AllValid(name: Slice, edits: seq<Edit>) {
    forall i :: 0 <= i < |edits| ==> ValidRecord(name, edits[i])
  }

  predicate ValidRecord(name: Slice, e: Edit) {
    ValidEdit(e) && (e.comparator.None? || e.comparator.value == name)
  }

  // versions[k] is what the records up to edits[k] say.
  ghost predicate Told(d: Disk, edits: seq<Edit>, versions: seq<Version>) {
    && |versions| == |edits| && NamedEdits(d, edits)
    && forall k {:trigger versions[k]} :: 0 <= k < |edits| ==> Says(d, edits[..k + 1], versions[k])
  }

  lemma ToldNext(d: Disk, edits: seq<Edit>, versions: seq<Version>, e: Edit, w: Version)
    requires Told(d, edits, versions) && edits != [] && NamedEdit(d, e)
    requires NewFiles(d, versions[|edits| - 1], e) && Installed(d, versions[|edits| - 1], e, w)
    ensures Told(d, edits + [e], versions + [w])
  {
    var n := |edits|;
    assert edits[..n - 1 + 1] == edits;
    SaysNext(d, edits, versions[n - 1], e, w);
    NamedOneMore(d, edits, e);
    forall k | 0 <= k < n + 1
      ensures Says(d, (edits + [e])[..k + 1], (versions + [w])[k])
    {
      if k < n {
        assert (edits + [e])[..k + 1] == edits[..k + 1];
      } else {
        assert (edits + [e])[..k + 1] == edits + [e];
      }
    }
  }

  // The numbers that a record carries, and the latest of several.
  datatype Numbers = Numbers(log: Option<uint64>, prevLog: Option<uint64>, nextFile: Option<uint64>,
                             lastSequence: Option<uint64>)

  function WithNumbers(ns: Numbers, e: Edit): Numbers {
    Numbers(if e.logNumber.Some? then e.logNumber else ns.log,
            if e.prevLogNumber.Some? then e.prevLogNumber else ns.prevLog,
            if e.nextFileNumber.Some? then e.nextFileNumber else ns.nextFile,
            if e.lastSequence.Some? then e.lastSequence else ns.lastSequence)
  }

  const NO_NUMBERS := Numbers(None, None, None, None)

  function LatestNumbers(edits: seq<Edit>, n: nat): Numbers
    requires n <= |edits|
  {
    if n == 0 then NO_NUMBERS else WithNumbers(LatestNumbers(edits, n - 1), edits[n - 1])
  }

  function NumbersOf(e: Edit): Numbers {
    Numbers(e.logNumber, e.prevLogNumber, e.nextFileNumber, e.lastSequence)
  }

  predicate HasNumbers(e: Edit) {
    e.logNumber.Some? && e.prevLogNumber.Some? && e.nextFileNumber.Some? && e.lastSequence.Some?
  }

  // ---------- the records of a running database ----------

  // The first record is a snapshot, each later one an installed edit with all its numbers;
  // versions[k] is what the records up to k say, and the pointers are what all of them say.
  ghost predicate Recorded(d: Disk, name: Slice, edits: seq<Edit>, versions: seq<Version>, pointers: seq<Slice>) {
    && edits != [] && AllValid(name, edits) && Told(d, edits, versions) && AllRecordable(d, versions)
    && NumbersOf(edits[0]) == NO_NUMBERS && (forall i :: 1 <= i < |edits| ==> HasNumbers(edits[i]))
    && PointersTold(edits, pointers)
  }

  ghost predicate AllRecordable(d: Disk, versions: seq<Version>) {
    forall k {:trigger versions[k]} :: 0 <= k < |versions| ==> Recordable(d, versions[k])
  }

  // The same, to be looked into only where Recorded is written.
  ghost predicate Kept(d: Disk, name: Slice, edits: seq<Edit>, versions: seq<Version>, pointers: seq<Slice>) {
    forall es {:trigger Recorded(d, name, es, versions, pointers)} :: es == edits ==>
      Recorded(d, name, es, versions, pointers)
  }

  ghost predicate PointersTold(edits: seq<Edit>, pointers: seq<Slice>) {
    |pointers| == 7 && forall l :: 0 <= l < 7 ==> PointerAll(edits, l, |edits|) == pointers[l]
  }

  // The pointers of all levels after an edit.
  ghost predicate PointersSet(before: seq<Slice>, e: Edit, after: seq<Slice>) {
    && |before| == 7 == |after|
    && forall l :: 0 <= l < 7 ==> after[l] == PointerAfter(before[l], e.compactPointers, l, |e.compactPointers|)
  }

  lemma PointersNext(edits: seq<Edit>, e: Edit, before: seq<Slice>, after: seq<Slice>)
    requires PointersTold(edits, before) && PointersSet(before, e, after)
    ensures PointersTold(edits + [e], after)
  {
    forall l | 0 <= l < 7
      ensures PointerAll(edits + [e], l, |edits| + 1) == after[l]
    {
      PointerAllFirst(edits, [e], l, |edits|);
      assert (edits + [e])[|edits|] == e;
    }
  }

  lemma AllValidNext(name: Slice, edits: seq<Edit>, e: Edit)
    requires AllValid(name, edits) && ValidRecord(name, e)
    ensures AllValid(name, edits + [e])
  {
  }

  // One more record for one more version.
  lemma RecordedNext(d: Disk, name: Slice, edits: seq<Edit>, versions: seq<Version>, before: seq<Slice>,
      e: Edit, w: Version, after: seq<Slice>)
    requires Kept(d, name, edits, versions, before) && |versions| == |edits| > 0
    requires ValidRecord(name, e) && NamedEdit(d, e) && HasNumbers(e) && PointersSet(before, e, after)
    requires NewFiles(d, versions[|edits| - 1], e) && Installed(d, versions[|edits| - 1], e, w) && Recordable(d, w)
    ensures Kept(d, name, edits + [e], versions + [w], after)
  {
    assert Recorded(d, name, edits, versions, before);
    AllValidNext(name, edits, e);
    ToldNext(d, edits, versions, e, w);
    PointersNext(edits, e, before, after);
  }

  lemma {:induction false} ValidPointers(ps: seq<Slice>, n: nat)
    requires n <= 7 == |ps|
    ensures forall i :: 0 <= i < |PointersOf(ps, n)| ==> ValidPointer(PointersOf(ps, n)[i])
  {
    if n > 0 {
      ValidPointers(ps, n - 1);
    }
  }

  lemma SnapshotValid(d: Disk, name: Slice, pointers: seq<Slice>, v: Version)
    requires AllStorable(d, v) && |pointers| == 7
    ensures ValidRecord(name, SnapshotEdit(d, name, PointersOf(pointers, 7), v))
  {
    var e := SnapshotEdit(d, name, PointersOf(pointers, 7), v);
    ValidPointers(pointers, 7);
    forall k | 0 <= k < |e.newFiles|
      ensures ValidAdded(e.newFiles[k])
    {
      SnapshotHas(d, v, 7, e.newFiles[k]);
    }
  }

  lemma FirstPointers(e: Edit, pointers: seq<Slice>)
    requires |pointers| == 7 && e.compactPointers == PointersOf(pointers, 7)
    ensures PointersTold([e], pointers)
  {
    forall l | 0 <= l < 7
      ensures PointerAll([e], l, 1) == pointers[l]
    {
      PointersAreSet(pointers, 7, l);
      assert PointerAll([e], l, 0) == [];
    }
  }

  lemma FirstTold(d: Disk, e: Edit, v: Version)
    requires NamedEdit(d, e) && Says(d, [e], v)
    ensures Told(d, [e], [v])
  {
    assert [e][..0 + 1] == [e];
  }

  lemma OneRecord(d: Disk, name: Slice, e: Edit, v: Version, pointers: seq<Slice>)
    requires ValidRecord(name, e) && NamedEdit(d, e) && Says(d, [e], v) && NumbersOf(e) == NO_NUMBERS
    requires |pointers| == 7 && e.compactPointers == PointersOf(pointers, 7) && Recordable(d, v)
    ensures Kept(d, name, [e], [v], pointers)
  {
    FirstTold(d, e, v);
    FirstPointers(e, pointers);
    assert Recorded(d, name, [e], [v], pointers);
  }

  // A new manifest starts with what the snapshot record says.
  lemma RecordedFirst(d: Disk, name: Slice, pointers: seq<Slice>, v: Version)
    requires Recordable(d, v) && |pointers| == 7
    ensures Kept(d, name, [SnapshotEdit(d, name, PointersOf(pointers, 7), v)], [v], pointers)
  {
    var e := SnapshotEdit(d, name, PointersOf(pointers, 7), v);
    SnapshotValid(d, name, pointers, v);
    SnapshotSays(d, name, PointersOf(pointers, 7), v);
    SnapshotNamed(d, name, PointersOf(pointers, 7), v);
    OneRecord(d, name, e, v, pointers);
  }

  // ---------- reading records ----------

  const NO_EDIT := Edit(None, None, None, None, None, [], [], [])

  // A record read into an edit object of its own.
  function DecodeRecord(record: Bytes): Option<Edit> {
    DecodeFields(record, NO_EDIT)
  }

  predicate Accepted(name: Slice, record: Bytes) {
    && DecodeRecord(record).Some?
    && (DecodeRecord(record).value.comparator.None? || DecodeRecord(record).value.comparator.value == name)
  }

  function EditOf(record: Bytes): Edit {
    if DecodeRecord(record).Some? then DecodeRecord(record).value else NO_EDIT
  }

  function DecodedEdits(records: seq<Bytes>): (r: seq<Edit>)
    ensures |r| == |records| && forall i :: 0 <= i < |r| ==> r[i] == EditOf(records[i])
  {
    seq(|records|, i requires 0 <= i < |records| => EditOf(records[i]))
  }

  predicate Complete(ns: Numbers) {
    ns.nextFile.Some? && ns.log.Some? && ns.lastSequence.Some?
  }

  // Recover succeeds on a file that reads like this.
  ghost predicate Recoverable(name: Slice, read: FileRead) {
    && read.reports == 0
    && (forall i :: 0 <= i < |read.records| ==> Accepted(name, read.records[i]))
    && Complete(LatestNumbers(DecodedEdits(read.records), |read.records|))
  }

  lemma DecodeRecordBack(e: Edit, record: Bytes)
    requires ValidEdit(e) && record == EncodeEdit(e)
    ensures DecodeRecord(record) == Some(e)
  {
    EditRoundTrip(e, NO_EDIT);
    assert [] + e.compactPointers == e.compactPointers;
  }

  lemma FirstRecordsReadBack(name: Slice, edits: seq<Edit>, k: nat)
    requires AllValid(name, edits) && k <= |edits|
    ensures DecodedEdits(Encoded(edits)[..k]) == edits[..k]
    ensures forall i :: 0 <= i < k ==> Accepted(name, Encoded(edits)[..k][i])
  {
    forall i | 0 <= i < k
      ensures Accepted(name, Encoded(edits)[..k][i]) && EditOf(Encoded(edits)[..k][i]) == edits[i]
    {
      assert Encoded(edits)[..k][i] == EncodeEdit(edits[i]);
      assert ValidRecord(name, edits[i]);
      DecodeRecordBack(edits[i], EncodeEdit(edits[i]));
    }
  }

  lemma LatestOfRecords(edits: seq<Edit>, k: nat)
    requires k <= |edits| && forall i :: 1 <= i < |edits| ==> HasNumbers(edits[i])
    requires edits != [] ==> NumbersOf(edits[0]) == NO_NUMBERS
    ensures LatestNumbers(edits, k) == if k <= 1 then NO_NUMBERS else NumbersOf(edits[k - 1])
  {
    if k == 1 {
      assert LatestNumbers(edits, 0) == NO_NUMBERS;
    }
  }

  lemma FirstRecords(d: Disk, name: Slice, edits: seq<Edit>, k: nat, read: FileRead)
    requires AllValid(name, edits) && k <= |edits| && read == FileRead(Encoded(edits)[..k], 0)
    requires edits != [] && NumbersOf(edits[0]) == NO_NUMBERS && forall i :: 1 <= i < |edits| ==> HasNumbers(edits[i])
    ensures DecodedEdits(read.records) == edits[..k] && (Recoverable(name, read) <==> k >= 2)
    ensures k >= 2 ==> LatestNumbers(edits[..k], k) == NumbersOf(edits[k - 1])
  {
    FirstRecordsReadBack(name, edits, k);
    LatestOfRecords(edits[..k], k);
  }

  lemma ToldAt(d: Disk, edits: seq<Edit>, versions: seq<Version>, k: nat)
    requires Told(d, edits, versions) && 1 <= k <= |edits|
    ensures Says(d, edits[..k], versions[k - 1])
  {
    assert edits[..k - 1 + 1] == edits[..k];
  }

  // Of k whole records: recovery succeeds exactly if there is an edit after the snapshot;
  // then the builder saves the version of the last edit, and its numbers are the latest.
  ghost predicate RecoversTo(d: Disk, name: Slice, edits: seq<Edit>, versions: seq<Version>, k: nat, read: FileRead)
    requires k <= |edits| == |versions|
  {
    && (Recoverable(name, read) <==> k >= 2)
    && DecodedEdits(read.records) == edits[..k]
    && (k >= 1 ==> Says(d, edits[..k], versions[k - 1]) && Recordable(d, versions[k - 1]))
    && (k >= 2 ==> LatestNumbers(edits[..k], k) == NumbersOf(edits[k - 1]) && HasNumbers(edits[k - 1]))
  }

  lemma WholeRecords(d: Disk, name: Slice, edits: seq<Edit>, versions: seq<Version>, pointers: seq<Slice>, k: nat,
      read: FileRead)
    requires Kept(d, name, edits, versions, pointers) && k <= |edits| == |versions|
    requires read == FileRead(Encoded(edits)[..k], 0)
    ensures RecoversTo(d, name, edits, versions, k, read)
  {
    assert Recorded(d, name, edits, versions, pointers);
    FirstRecords(d, name, edits, k, read);
    if k >= 1 {
      ToldAt(d, edits, versions, k);
    }
    assert k >= 2 ==> HasNumbers(edits[k - 1]);
  }

  lemma KeptPointers(d: Disk, name: Slice, edits: seq<Edit>, versions: seq<Version>, pointers: seq<Slice>)
    requires Kept(d, name, edits, versions, pointers)
    ensures PointersTold(edits, pointers)
  {
    assert Recorded(d, name, edits, versions, pointers);
  }

  // A manifest that a crash cut off anywhere.
  lemma CrashedManifest(d: Disk, name: Slice, crc: Checksum, edits: seq<Edit>, versions: seq<Version>,
      pointers: seq<Slice>, f: Bytes)
    requires Kept(d, name, edits, versions, pointers) && |versions| == |edits|
    requires f <= LogOf(AddRecordTo(crc), 0, Encoded(edits))
    ensures RecoversTo(d, name, edits, versions, Whole(AddRecordTo(crc), 0, Encoded(edits), |f|), ReadAll(crc, f, 0))
  {
    CrashRecovery(crc, Encoded(edits), f);
    WholeRecords(d, name, edits, versions, pointers, Whole(AddRecordTo(crc), 0, Encoded(edits), |f|), ReadAll(crc, f, 0));
  }

  // ---------- while recovering ----------

  // `read` has been read, with this many reports; the rest of the file follows.
  ghost predicate ReadSoFar(crc: Checksum, file: Bytes, pos: int, reports: nat, read: seq<Bytes>) {
    0 <= pos <= |file|
    && var rest := ReadAll(crc, file, pos);
       ReadAll(crc, file, 0) == FileRead(read + rest.records, reports + rest.reports)
  }

  lemma ReadNext(crc: Checksum, file: Bytes, pos: nat, reports: nat, read: seq<Bytes>)
    requires ReadSoFar(crc, file, pos, reports, read)
    ensures var r := ReadRecordFrom(crc, file, pos, None);
            if r.record.None? then ReadAll(crc, file, 0) == FileRead(read, reports + r.reports)
            else ReadSoFar(crc, file, r.next, reports + r.reports, read + [r.record.value])
  {
    var r := ReadRecordFrom(crc, file, pos, None);
    if r.record.None? {
      assert read + [] == read;
    } else {
      var rest := ReadAll(crc, file, r.next);
      assert read + ([r.record.value] + rest.records) == read + [r.record.value] + rest.records;
    }
  }

  ghost predicate AllAccepted(name: Slice, read: seq<Bytes>) {
    forall i :: 0 <= i < |read| ==> Accepted(name, read[i])
  }

  lemma NotAccepted(name: Slice, crc: Checksum, file: Bytes, pos: int, reports: nat, read: seq<Bytes>, record: Bytes)
    requires ReadSoFar(crc, file, pos, reports, read + [record]) && !Accepted(name, record)
    ensures !Recoverable(name, ReadAll(crc, file, 0))
  {
    var all := ReadAll(crc, file, 0);
    assert all.records[|read|] == record;
  }

  lemma DecodedNext(read: seq<Bytes>, record: Bytes)
    ensures DecodedEdits(read + [record]) == DecodedEdits(read) + [EditOf(record)]
  {
  }

  lemma {:induction false} LatestFirst(edits: seq<Edit>, more: seq<Edit>, n: nat)
    requires n <= |edits|
    ensures LatestNumbers(edits + more, n) == LatestNumbers(edits, n)
    decreases n
  {
    if n > 0 {
      LatestFirst(edits, more, n - 1);
    }
  }

  lemma LatestNext(edits: seq<Edit>, e: Edit)
    ensures LatestNumbers(edits + [e], |edits| + 1) == WithNumbers(LatestNumbers(edits, |edits|), e)
  {
    LatestFirst(edits, [e], |edits|);
    assert (edits + [e])[|edits|] == e;
  }

  // The levels of a builder after these edits.
  ghost predicate LevelsTold(d: Disk, edits: seq<Edit>, levels: seq<LevelFiles>) {
    |levels| == 7 && forall l :: 0 <= l < 7 ==> levels[l] == AppliedAll(d, edits, l, |edits|)
  }

  lemma LevelsNext(d: Disk, edits: seq<Edit>, e: Edit, before: seq<LevelFiles>, after: seq<LevelFiles>)
    requires LevelsTold(d, edits, before) && |after| == 7
    requires forall l :: 0 <= l < 7 ==> after[l] == AppliedTo(d, before[l], e, l)
    ensures LevelsTold(d, edits + [e], after)
  {
    forall l | 0 <= l < 7
      ensures after[l] == AppliedAll(d, edits + [e], l, |edits| + 1)
    {
      AppliedOneMore(d, edits, e, l);
    }
  }

  // All that has been made of the records read.
  ghost predicate Replayed(d: Disk, edits: seq<Edit>, levels: seq<LevelFiles>, pointers: seq<Slice>, numbers: Numbers) {
    LevelsTold(d, edits, levels) && PointersTold(edits, pointers) && numbers == LatestNumbers(edits, |edits|)
  }

  lemma ReplayedNext(d: Disk, edits: seq<Edit>, e: Edit, before: seq<LevelFiles>, after: seq<LevelFiles>,
      pointersBefore: seq<Slice>, pointers: seq<Slice>, numbers: Numbers)
    requires Replayed(d, edits, before, pointersBefore, numbers) && PointersSet(pointersBefore, e, pointers)
    requires |after| == 7 && forall l :: 0 <= l < 7 ==> after[l] == AppliedTo(d, before[l], e, l)
    ensures Replayed(d, edits + [e], after, pointers, WithNumbers(numbers, e))
  {
    LevelsNext(d, edits, e, before, after);
    PointersNext(edits, e, pointersBefore, pointers);
    LatestNext(edits, e);
  }
}
