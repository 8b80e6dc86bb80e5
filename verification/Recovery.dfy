/** DBImpl::RecoverLogFile (db/db_impl.cc): replaying the batches of a log that may have been
  cut off by a crash. */
module Recovery {
  import opened Wrappers
  import opened Keys
  import opened Coding
  import opened LogFormat
  import opened Log
  import opened WriteBatches

  // A batch as DBImpl::Write logs it: numbered from the last sequence number on. The count of
  // operations is an int.
  datatype Batch = Batch(sequence: nat, ops: seq<Op>)

  predicate Numberable(b: Batch) {
    1 <= b.sequence && |b.ops| < 0x8000_0000 && b.sequence + |b.ops| <= MAX_SEQUENCE_NUMBER
  }

  ghost predicate AllNumberable(batches: seq<Batch>) {
    forall i :: 0 <= i < |batches| ==> Numberable(batches[i])
  }

  function Record(b: Batch): Bytes
    requires Numberable(b)
  {
    Contents(b.sequence, b.ops)
  }

  ghost function Records(batches: seq<Batch>): (r: seq<Bytes>)
    requires AllNumberable(batches)
    ensures |r| == |batches|
  {
    seq(|batches|, i requires 0 <= i < |batches| => Record(batches[i]))
  }

  function Entries(batches: seq<Batch>): seq<(nat, Op)> {
    if batches == [] then []
    else Entries(batches[..|batches| - 1]) + Numbered(batches[|batches| - 1].sequence, batches[|batches| - 1].ops)
  }

  function MaxSequence(batches: seq<Batch>, start: nat): nat {
    if batches == [] then start
    else
      var last := batches[|batches| - 1];
      var before := MaxSequence(batches[..|batches| - 1], start);
      if last.sequence + |last.ops| - 1 > before then last.sequence + |last.ops| - 1 else before
  }

  lemma OneMoreBatch(batches: seq<Batch>, n: nat, start: nat)
    requires n < |batches|
    ensures Entries(batches[..n + 1]) == Entries(batches[..n]) + Numbered(batches[n].sequence, batches[n].ops)
    ensures MaxSequence(batches[..n + 1], start)
         == if batches[n].sequence + |batches[n].ops| - 1 > MaxSequence(batches[..n], start)
            then batches[n].sequence + |batches[n].ops| - 1 else MaxSequence(batches[..n], start)
  {
    assert batches[..n + 1][..n] == batches[..n];
  }

  // ---------- any file ----------

  // The operations that a record hands to the memtable, damaged or not.
  function OpsIn(record: Bytes): seq<Op> {
    match IterateOf(record)
    case Done(ops) => ops
    case Corruption(handled) => handled
  }

  // Numbered from a sequence number on, in 64 bits.
  function Wrapping(sequence: nat, ops: seq<Op>): (r: seq<(nat, Op)>)
    ensures |r| == |ops| && forall i :: 0 <= i < |ops| ==> r[i] == ((sequence + i) % TWO64, ops[i])
  {
    seq(|ops|, i requires 0 <= i < |ops| => ((sequence + i) % TWO64, ops[i]))
  }

  lemma NoWrap(sequence: nat, ops: seq<Op>)
    requires sequence + |ops| <= TWO64
    ensures Wrapping(sequence, ops) == Numbered(sequence, ops)
  {
  }

  function RecordEntries(record: Bytes): seq<(nat, Op)> {
    if |record| < WriteBatches.HEADER then [] else Wrapping(DecodeFixed64(record), OpsIn(record))
  }

  predicate Intact(record: Bytes) {
    |record| >= WriteBatches.HEADER && IterateOf(record).Done?
  }

  // The count of a batch, as an int.
  function CountIn(record: Bytes): int
    requires |record| >= WriteBatches.HEADER
  {
    var n := DecodeFixed32(record[8..]);
    if n >= 0x8000_0000 then n - TWO32 else n
  }

  // The number of the last operation, in 64 bits, if it is higher.
  function Raised(max: nat, record: Bytes): nat {
    if |record| < WriteBatches.HEADER then max
    else
      var last := (DecodeFixed64(record) + CountIn(record) - 1) % TWO64;
      if last > max then last else max
  }

  function AllEntries(records: seq<Bytes>): seq<(nat, Op)> {
    if records == [] then [] else AllEntries(records[..|records| - 1]) + RecordEntries(records[|records| - 1])
  }

  function Highest(records: seq<Bytes>, start: nat): nat {
    if records == [] then start else Raised(Highest(records[..|records| - 1], start), records[|records| - 1])
  }

  lemma OneMoreRecord(records: seq<Bytes>, record: Bytes, start: nat)
    ensures AllEntries(records + [record]) == AllEntries(records) + RecordEntries(record)
    ensures Highest(records + [record], start) == Raised(Highest(records, start), record)
  {
    assert (records + [record])[..|records|] == records;
  }

  // The records `done` have been read and replayed; the rest of the file is still to be read.
  ghost predicate ReadSoFar(crc: Checksum, file: Bytes, pos: nat, done: seq<Bytes>, reports: nat) {
    && pos <= |file|
    && ReadAll(crc, file, 0) ==
       FileRead(done + ReadAll(crc, file, pos).records, reports + ReadAll(crc, file, pos).reports)
  }

  // The same, to be looked into only where ReadSoFar is written.
  ghost predicate SoFar(crc: Checksum, file: Bytes, pos: nat, done: seq<Bytes>, reports: nat) {
    forall p {:trigger ReadSoFar(crc, file, p, done, reports)} :: p == pos ==> ReadSoFar(crc, file, p, done, reports)
  }

  lemma ReadOneMore(crc: Checksum, file: Bytes, pos: nat, done: seq<Bytes>, reports: nat)
    requires ReadSoFar(crc, file, pos, done, reports)
    ensures var r := ReadRecordFrom(crc, file, pos, None);
            && (r.record.Some? ==> SoFar(crc, file, r.next, done + [r.record.value], reports + r.reports))
            && (r.record.None? ==> ReadAll(crc, file, 0) == FileRead(done, reports + r.reports))
  {
    var r := ReadRecordFrom(crc, file, pos, None);
    if r.record.Some? {
      var rest := ReadAll(crc, file, r.next);
      assert done + ([r.record.value] + rest.records) == done + [r.record.value] + rest.records;
    } else {
      assert done + [] == done;
    }
  }

  // WriteBatchInternal::InsertInto: the entries handed to the memtable, and whether the
  // batch was well formed.
  method InsertInto(rep: Bytes) returns (entries: seq<(nat, Op)>, ok: bool)
    requires |rep| >= WriteBatches.HEADER
    ensures entries == RecordEntries(rep) && ok == Intact(rep)
  {
    var r := Iterate(rep);
    var sequence := DecodeFixed64(rep);
    var ops := match r case Done(ops) => ops case Corruption(handled) => handled;
    entries := Wrapping(sequence, ops);
    ok := r.Done?;
  }

  // One record of the log: what it adds, and the new highest sequence number.
  method ReplayRecord(record: Bytes, paranoid: bool, maxSequence: nat)
    returns (added: seq<(nat, Op)>, newMax: nat, ok: bool)
    ensures added == RecordEntries(record) && (ok <==> paranoid ==> Intact(record))
    ensures ok ==> newMax == Raised(maxSequence, record)
  {
    if |record| < WriteBatches.HEADER {
      // Log record too small.
      return [], maxSequence, !paranoid;
    }
    var fine;
    added, fine := InsertInto(record);
    if !fine && paranoid {
      return added, maxSequence, false;
    }
    var last := (DecodeFixed64(record) + CountIn(record) - 1) % TWO64;
    newMax := if last > maxSequence then last else maxSequence;
    ok := true;
  }

  // Nothing was dropped, and every record is a well formed batch.
  ghost predicate Undamaged(all: FileRead) {
    all.reports == 0 && forall i :: 0 <= i < |all.records| ==> Intact(all.records[i])
  }

  ghost predicate Replay(all: FileRead, paranoid: bool, start: nat, entries: seq<(nat, Op)>, maxSequence: nat, ok: bool) {
    && (ok <==> paranoid ==> Undamaged(all))
    && (ok ==> entries == AllEntries(all.records) && maxSequence == Highest(all.records, start))
  }

  // RecoverLogFile, on any file: what can be read is replayed, and under paranoid checks
  // damage anywhere is an error. (Writing out full memtables on the way is left to the caller.)
  method RecoverLogFile(file: Bytes, paranoid: bool, start: nat, ghost crc: Checksum)
    returns (entries: seq<(nat, Op)>, maxSequence: nat, ok: bool)
    requires MaskedCrc(crc)
    ensures Replay(ReadAll(crc, file, 0), paranoid, start, entries, maxSequence, ok)
  {
    var reader := new Reader(file, crc);
    entries, maxSequence, ok := [], start, true;
    ghost var done: seq<Bytes> := [];
    assert ReadSoFar(crc, file, 0, [], 0);
    while true
      invariant reader.Valid() && fresh(reader) && reader.file == file && reader.crc == crc
      invariant Replaying(reader, done, paranoid, start, entries, maxSequence)
      decreases |file| - reader.Pos()
    {
      var more;
      more, entries, maxSequence, ok, done := ReplayNext(reader, done, paranoid, start, entries, maxSequence);
      if !more {
        return;
      }
    }
  }

  ghost predicate Replaying(reader: Reader, done: seq<Bytes>, paranoid: bool, start: nat, entries: seq<(nat, Op)>, maxSequence: nat)
    requires reader.Valid()
    reads reader
  {
    && SoFar(reader.crc, reader.file, reader.Pos(), done, reader.reports)
    && (paranoid ==> Undamaged(FileRead(done, reader.reports)))
    && entries == AllEntries(done) && maxSequence == Highest(done, start)
  }

  // Once around the loop: to the next record, or to the end.
  method ReplayNext(reader: Reader, ghost done: seq<Bytes>, paranoid: bool, ghost start: nat, entries: seq<(nat, Op)>, maxSequence: nat)
    returns (more: bool, newEntries: seq<(nat, Op)>, newMax: nat, ok: bool, ghost newDone: seq<Bytes>)
    requires reader.Valid() && Replaying(reader, done, paranoid, start, entries, maxSequence)
    modifies reader
    ensures reader.Valid() && (more ==> reader.Pos() > old(reader.Pos()))
    ensures more ==> ok && Replaying(reader, newDone, paranoid, start, newEntries, newMax)
    ensures !more ==> Replay(ReadAll(reader.crc, reader.file, 0), paranoid, start, newEntries, newMax, ok)
  {
    newDone := done;
    var record := NextRecord(reader, done);
    // A reported drop is an error only under paranoid checks.
    if record.None? || (paranoid && reader.reports > 0) {
      if record.None? {
        ReplayEnds(ReadAll(reader.crc, reader.file, 0), done, reader.reports, paranoid, start, entries, maxSequence);
      } else {
        ReplayFails(reader.crc, reader.file, reader.Pos(), done + [record.value], reader.reports);
      }
      return false, entries, maxSequence, !(paranoid && reader.reports > 0), done;
    }
    newDone := done + [record.value];
    OneMoreRecord(done, record.value, start);
    var added;
    added, newMax, ok := ReplayRecord(record.value, paranoid, maxSequence);
    newEntries := entries + added;
    more := ok;
    if ok {
      StillUndamaged(done, record.value, reader.reports, paranoid);
    } else {
      assert newDone[|done|] == record.value;
      ReplayFails(reader.crc, reader.file, reader.Pos(), newDone, reader.reports);
    }
  }

  method NextRecord(reader: Reader, ghost done: seq<Bytes>) returns (record: Option<Bytes>)
    requires reader.Valid() && SoFar(reader.crc, reader.file, reader.Pos(), done, reader.reports)
    modifies reader
    ensures reader.Valid() && reader.reports >= old(reader.reports)
    ensures record.Some? ==>
              && reader.Pos() > old(reader.Pos())
              && SoFar(reader.crc, reader.file, reader.Pos(), done + [record.value], reader.reports)
    ensures record.None? ==> ReadAll(reader.crc, reader.file, 0) == FileRead(done, reader.reports)
  {
    assert ReadSoFar(reader.crc, reader.file, reader.Pos(), done, reader.reports);
    ReadOneMore(reader.crc, reader.file, reader.Pos(), done, reader.reports);
    record := reader.ReadRecord();
  }

  lemma ReplayEnds(all: FileRead, done: seq<Bytes>, reports: nat, paranoid: bool, start: nat, entries: seq<(nat, Op)>, maxSequence: nat)
    requires all == FileRead(done, reports) && (paranoid ==> Undamaged(FileRead(done, 0)))
    requires entries == AllEntries(done) && maxSequence == Highest(done, start)
    ensures Replay(all, paranoid, start, entries, maxSequence, !(paranoid && reports > 0))
  {
  }

  // Damage that was seen is damage of the file.
  lemma ReplayFails(crc: Checksum, file: Bytes, pos: nat, done: seq<Bytes>, reports: nat)
    requires SoFar(crc, file, pos, done, reports)
    requires reports > 0 || exists i :: 0 <= i < |done| && !Intact(done[i])
    ensures !Undamaged(ReadAll(crc, file, 0))
  {
    assert ReadSoFar(crc, file, pos, done, reports);
    var all := ReadAll(crc, file, 0);
    if i :| 0 <= i < |done| && !Intact(done[i]) {
      assert all.records[i] == done[i];
    }
  }

  lemma StillUndamaged(done: seq<Bytes>, record: Bytes, reports: nat, paranoid: bool)
    requires paranoid ==> Undamaged(FileRead(done, 0)) && reports == 0 && Intact(record)
    ensures paranoid ==> Undamaged(FileRead(done + [record], reports))
  {
  }

  // ---------- a log that was cut off ----------

  lemma WholeRecord(b: Batch)
    requires Numberable(b)
    ensures Intact(Record(b)) && RecordEntries(Record(b)) == Numbered(b.sequence, b.ops)
  {
    CountOf(b.sequence, b.ops);
    IterateBack(b.sequence, b.ops);
    NoWrap(b.sequence, b.ops);
  }

  lemma WholeRaises(b: Batch, max: nat)
    requires Numberable(b)
    ensures Raised(max, Record(b)) == if b.sequence + |b.ops| - 1 > max then b.sequence + |b.ops| - 1 else max
  {
    CountOf(b.sequence, b.ops);
  }

  lemma RecordAdds(b: Batch, record: Bytes, max: nat)
    requires Numberable(b) && record == Record(b)
    ensures RecordEntries(record) == Numbered(b.sequence, b.ops)
    ensures Raised(max, record) == if b.sequence + |b.ops| - 1 > max then b.sequence + |b.ops| - 1 else max
  {
    WholeRecord(b);
    WholeRaises(b, max);
  }

  lemma RecordsUpTo(rs: seq<Bytes>, k: nat, start: nat)
    requires 0 < k <= |rs|
    ensures AllEntries(rs[..k]) == AllEntries(rs[..k - 1]) + RecordEntries(rs[k - 1])
    ensures Highest(rs[..k], start) == Raised(Highest(rs[..k - 1], start), rs[k - 1])
  {
    assert rs[..k] == rs[..k - 1] + [rs[k - 1]];
    OneMoreRecord(rs[..k - 1], rs[k - 1], start);
  }

  lemma BatchesUpTo(batches: seq<Batch>, k: nat, start: nat)
    requires 0 < k <= |batches|
    ensures Entries(batches[..k]) == Entries(batches[..k - 1]) + Numbered(batches[k - 1].sequence, batches[k - 1].ops)
    ensures var last, before := batches[k - 1].sequence + |batches[k - 1].ops| - 1, MaxSequence(batches[..k - 1], start);
            MaxSequence(batches[..k], start) == if last > before then last else before
  {
    OneMoreBatch(batches, k - 1, start);
    assert batches[..k - 1 + 1] == batches[..k];
  }

  lemma {:induction false} WholeRecords(batches: seq<Batch>, rs: seq<Bytes>, k: nat, start: nat)
    requires AllNumberable(batches) && rs == Records(batches) && k <= |batches|
    ensures AllEntries(rs[..k]) == Entries(batches[..k]) && Highest(rs[..k], start) == MaxSequence(batches[..k], start)
    decreases k
  {
    if k == 0 {
      assert rs[..0] == [] && batches[..0] == [];
    } else {
      WholeRecords(batches, rs, k - 1, start);
      RecordAdds(batches[k - 1], rs[k - 1], MaxSequence(batches[..k - 1], start));
      RecordsUpTo(rs, k, start);
      BatchesUpTo(batches, k, start);
    }
  }

  lemma WholeIntact(batches: seq<Batch>, rs: seq<Bytes>, k: nat)
    requires AllNumberable(batches) && rs == Records(batches) && k <= |batches|
    ensures Undamaged(FileRead(rs[..k], 0))
  {
    forall i | 0 <= i < k
      ensures Intact(rs[..k][i])
    {
      WholeRecord(batches[i]);
    }
  }

  // If the file is the log of `batches` cut off anywhere, exactly the batches wholly contained
  // are replayed, each with its own sequence numbers.
  lemma CutLogReplays(file: Bytes, paranoid: bool, start: nat, crc: Checksum, batches: seq<Batch>,
      entries: seq<(nat, Op)>, maxSequence: nat, ok: bool)
    requires AllNumberable(batches) && file <= LogOf(AddRecordTo(crc), 0, Records(batches))
    requires Replay(ReadAll(crc, file, 0), paranoid, start, entries, maxSequence, ok)
    ensures var k := Whole(AddRecordTo(crc), 0, Records(batches), |file|);
            ok && entries == Entries(batches[..k]) && maxSequence == MaxSequence(batches[..k], start)
  {
    var k := Whole(AddRecordTo(crc), 0, Records(batches), |file|);
    CrashRecovery(crc, Records(batches), file);
    WholeRecords(batches, Records(batches), k, start);
    WholeIntact(batches, Records(batches), k);
  }
}
