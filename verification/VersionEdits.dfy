/** Version edits as bytes (db/version_edit.cc): what a manifest record says, and how it is
  written and read. */
module VersionEdits {
  import opened Wrappers
  import opened Keys
  import opened Coding

  // A file as an edit has it: its keys are stored internal keys.
  datatype StoredFile = StoredFile(number: uint64, size: uint64, smallest: Slice, largest: Slice)

  datatype Pointer = Pointer(level: uint32, key: Slice)
  datatype Deleted = Deleted(level: uint32, number: uint64)
  datatype Added = Added(level: uint32, file: StoredFile)

  // deletedFiles is a std::set of pairs: sorted, without repetition.
  datatype Edit = Edit(comparator: Option<Slice>, logNumber: Option<uint64>, prevLogNumber: Option<uint64>,
                       nextFileNumber: Option<uint64>, lastSequence: Option<uint64>,
                       compactPointers: seq<Pointer>, deletedFiles: seq<Deleted>, newFiles: seq<Added>)

  const COMPARATOR := 1
  const LOG_NUMBER := 2
  const NEXT_FILE_NUMBER := 3
  const LAST_SEQUENCE := 4
  const COMPACT_POINTER := 5
  const DELETED_FILE := 6
  const NEW_FILE := 7
  const PREV_LOG_NUMBER := 9

  const NUM_LEVELS := 7

  // The order of pair<int, uint64_t>.
  predicate DeletedLess(a: Deleted, b: Deleted) {
    a.level < b.level || (a.level == b.level && a.number < b.number)
  }

  predicate Sorted(ds: seq<Deleted>) {
    forall i, j :: 0 <= i < j < |ds| ==> DeletedLess(ds[i], ds[j])
  }

  // What an edit of the database is: real levels, and keys that are not empty.
  predicate ValidEdit(e: Edit) {
    && Sorted(e.deletedFiles)
    && (forall i :: 0 <= i < |e.compactPointers| ==> ValidPointer(e.compactPointers[i]))
    && (forall i :: 0 <= i < |e.deletedFiles| ==> ValidDeleted(e.deletedFiles[i]))
    && (forall i :: 0 <= i < |e.newFiles| ==> ValidAdded(e.newFiles[i]))
  }

  predicate ValidPointer(p: Pointer) {
    p.level < NUM_LEVELS && p.key != []
  }

  predicate ValidDeleted(d: Deleted) {
    d.level < NUM_LEVELS
  }

  predicate ValidAdded(a: Added) {
    a.level < NUM_LEVELS && a.file.smallest != [] && a.file.largest != []
  }

  // ---------- writing ----------

  function EncodeName(o: Option<Slice>): Bytes {
    if o.None? then [] else EncodeVarint(COMPARATOR) + PutLengthPrefixedSlice(o.value)
  }

  function EncodeNumber(tag: uint32, o: Option<uint64>): Bytes {
    if o.None? then [] else EncodeVarint(tag) + EncodeVarint(o.value)
  }

  function EncodePointer(p: Pointer): Bytes {
    EncodeVarint(COMPACT_POINTER) + (EncodeVarint(p.level) + PutLengthPrefixedSlice(p.key))
  }

  function EncodeDeleted(d: Deleted): Bytes {
    EncodeVarint(DELETED_FILE) + (EncodeVarint(d.level) + EncodeVarint(d.number))
  }

  function EncodeFile(f: StoredFile): Bytes {
    EncodeVarint(f.number)
    + (EncodeVarint(f.size) + (PutLengthPrefixedSlice(f.smallest) + PutLengthPrefixedSlice(f.largest)))
  }

  function EncodeAdded(a: Added): Bytes {
    EncodeVarint(NEW_FILE) + (EncodeVarint(a.level) + EncodeFile(a.file))
  }

  // The items from k on.
  function EncodeAll<T>(one: T -> Bytes, items: seq<T>, k: nat): Bytes
    requires k <= |items|
    decreases |items| - k
  {
    if k == |items| then [] else one(items[k]) + EncodeAll(one, items, k + 1)
  }

  function EncodeLists(e: Edit): Bytes {
    EncodeAll(EncodePointer, e.compactPointers, 0)
    + (EncodeAll(EncodeDeleted, e.deletedFiles, 0) + EncodeAll(EncodeAdded, e.newFiles, 0))
  }

  // VersionEdit::EncodeTo.
  function EncodeEdit(e: Edit): Bytes {
    EncodeName(e.comparator)
    + (EncodeNumber(LOG_NUMBER, e.logNumber)
    + (EncodeNumber(PREV_LOG_NUMBER, e.prevLogNumber)
    + (EncodeNumber(NEXT_FILE_NUMBER, e.nextFileNumber)
    + (EncodeNumber(LAST_SEQUENCE, e.lastSequence)
    + EncodeLists(e)))))
  }

  // ---------- reading ----------

  function GetLevel(input: Bytes): Option<Decoded<nat>> {
    match DecodeFrom(input, 0, 0)
    case None => None
    case Some(d) => if d.value < NUM_LEVELS then Some(d) else None
  }

  function GetInternalKey(input: Bytes): Option<Decoded<Slice>> {
    match GetLengthPrefixedSlice(input)
    case None => None
    case Some(d) => if d.value == [] then None else Some(d)
  }

  function GetFile(input: Bytes): Option<Decoded<StoredFile>> {
    match DecodeVarint64(input)
    case None => None
    case Some(number) =>
      match DecodeVarint64(number.rest)
      case None => None
      case Some(size) =>
        match GetInternalKey(size.rest)
        case None => None
        case Some(smallest) =>
          match GetInternalKey(smallest.rest)
          case None => None
          case Some(largest) =>
            Some(Decoded(StoredFile(number.value, size.value, smallest.value, largest.value), largest.rest))
  }

  // std::set::insert.
  function InsertDeleted(ds: seq<Deleted>, d: Deleted): seq<Deleted> {
    if ds == [] || DeletedLess(d, ds[0]) then [d] + ds
    else if d == ds[0] then ds
    else [ds[0]] + InsertDeleted(ds[1..], d)
  }

  datatype Parsed = Parsed(edit: Edit, rest: Bytes)

  // The body of the switch; None is a corrupt record.
  function DecodeField(tag: nat, input: Bytes, e: Edit): Option<Parsed> {
    if tag == COMPARATOR then
      match GetLengthPrefixedSlice(input)
      case None => None
      case Some(d) => Some(Parsed(e.(comparator := Some(d.value)), d.rest))
    else if tag == LOG_NUMBER || tag == PREV_LOG_NUMBER || tag == NEXT_FILE_NUMBER || tag == LAST_SEQUENCE then
      match DecodeVarint64(input)
      case None => None
      case Some(d) => Some(Parsed(WithNumber(e, tag, d.value), d.rest))
    else if tag == COMPACT_POINTER || tag == DELETED_FILE || tag == NEW_FILE then
      match GetLevel(input)
      case None => None
      case Some(level) => DecodeAtLevel(tag, level.value, level.rest, e)
    else
      None
  }

  function WithNumber(e: Edit, tag: nat, n: uint64): Edit {
    if tag == LOG_NUMBER then e.(logNumber := Some(n))
    else if tag == PREV_LOG_NUMBER then e.(prevLogNumber := Some(n))
    else if tag == NEXT_FILE_NUMBER then e.(nextFileNumber := Some(n))
    else e.(lastSequence := Some(n))
  }

  function DecodeAtLevel(tag: nat, level: nat, input: Bytes, e: Edit): Option<Parsed>
    requires level < 0x1_0000_0000
  {
    if tag == COMPACT_POINTER then
      match GetInternalKey(input)
      case None => None
      case Some(d) => Some(Parsed(e.(compactPointers := e.compactPointers + [Pointer(level, d.value)]), d.rest))
    else if tag == DELETED_FILE then
      match DecodeVarint64(input)
      case None => None
      case Some(d) => Some(Parsed(e.(deletedFiles := InsertDeleted(e.deletedFiles, Deleted(level, d.value))), d.rest))
    else
      match GetFile(input)
      case None => None
      case Some(d) => Some(Parsed(e.(newFiles := e.newFiles + [Added(level, d.value)]), d.rest))
  }

  // A tag and what belongs to it.
  function DecodeOne(input: Bytes, e: Edit): Option<Parsed> {
    match DecodeFrom(input, 0, 0)
    case None => None
    case Some(d) => DecodeField(d.value, d.rest, e)
  }

  lemma {:induction false} VarintShortens(s: Bytes, shift: nat, result: nat)
    ensures DecodeFrom(s, shift, result).Some? ==> |DecodeFrom(s, shift, result).value.rest| < |s|
    decreases 35 - shift
  {
    if s != [] && shift <= 28 && s[0] >= 128 {
      VarintShortens(s[1..], shift + 7, result + Shifted(s[0], shift));
    }
  }

  lemma FieldShortens(tag: nat, input: Bytes, e: Edit)
    ensures DecodeField(tag, input, e).Some? ==> |DecodeField(tag, input, e).value.rest| <= |input|
  {
    VarintShortens(input, 0, 0);
    if tag == COMPACT_POINTER || tag == DELETED_FILE || tag == NEW_FILE {
      match GetLevel(input)
      case None =>
      case Some(d) => AtLevelShortens(tag, d.value, d.rest, e);
    }
  }

  lemma KeyShortens(input: Bytes)
    ensures GetInternalKey(input).Some? ==> |GetInternalKey(input).value.rest| <= |input|
  {
    VarintShortens(input, 0, 0);
  }

  lemma AtLevelShortens(tag: nat, level: nat, input: Bytes, e: Edit)
    requires level < 0x1_0000_0000
    ensures DecodeAtLevel(tag, level, input, e).Some? ==> |DecodeAtLevel(tag, level, input, e).value.rest| <= |input|
  {
    if tag == COMPACT_POINTER {
      KeyShortens(input);
    } else if tag != DELETED_FILE {
      FileShortens(input);
    }
  }

  lemma FileShortens(input: Bytes)
    ensures GetFile(input).Some? ==> |GetFile(input).value.rest| <= |input|
  {
    if GetFile(input).Some? {
      var size := DecodeVarint64(DecodeVarint64(input).value.rest).value;
      KeyShortens(size.rest);
      KeyShortens(GetInternalKey(size.rest).value.rest);
    }
  }

  // VersionEdit::DecodeFrom from the loop on: None for a bad field, or for input left over.
  function DecodeFields(input: Bytes, e: Edit): Option<Edit>
    decreases |input|
  {
    VarintShortens(input, 0, 0);
    match DecodeFrom(input, 0, 0)
    case None => if input == [] then Some(e) else None
    case Some(d) =>
      FieldShortens(d.value, d.rest, e);
      match DecodeField(d.value, d.rest, e)
      case None => None
      case Some(p) => DecodeFields(p.rest, p.edit)
  }

  // Clear leaves the compaction pointers where they are.
  function Cleared(e: Edit): Edit {
    Edit(None, None, None, None, None, e.compactPointers, [], [])
  }

  // ---------- the round trip ----------

  // `decode` goes on after each field.
  predicate GoesOn(decode: (Bytes, Edit) -> Option<Edit>, input: Bytes, e: Edit) {
    DecodeOne(input, e).Some? ==> decode(input, e) == decode(DecodeOne(input, e).value.rest, DecodeOne(input, e).value.edit)
  }

  ghost predicate IsDecoder(decode: (Bytes, Edit) -> Option<Edit>) {
    forall input, e :: GoesOn(decode, input, e)
  }

  lemma DecodeFieldsIsDecoder()
    ensures IsDecoder(DecodeFields)
  {
    forall input, e
      ensures GoesOn(DecodeFields, input, e)
    {
    }
  }

  lemma TagReads(tag: uint32, more: Bytes, rest: Bytes, e: Edit)
    ensures DecodeOne(EncodeVarint(tag) + more + rest, e) == DecodeField(tag, more + rest, e)
  {
    assert EncodeVarint(tag) + more + rest == EncodeVarint(tag) + (more + rest);
    Varint32RoundTrip(tag, more + rest);
  }

  lemma NameReads(o: Option<Slice>, rest: Bytes, e: Edit, decode: (Bytes, Edit) -> Option<Edit>)
    requires IsDecoder(decode) && e.comparator.None?
    ensures decode(EncodeName(o) + rest, e) == decode(rest, e.(comparator := o))
  {
    if o.None? {
      assert [] + rest == rest;
    } else {
      TagReads(COMPARATOR, PutLengthPrefixedSlice(o.value), rest, e);
      LengthPrefixedRoundTrip(o.value, rest);
      assert GoesOn(decode, EncodeName(o) + rest, e);
    }
  }

  lemma NumberReads(tag: uint32, o: Option<uint64>, rest: Bytes, e: Edit, decode: (Bytes, Edit) -> Option<Edit>)
    requires IsDecoder(decode)
    requires tag == LOG_NUMBER || tag == PREV_LOG_NUMBER || tag == NEXT_FILE_NUMBER || tag == LAST_SEQUENCE
    ensures decode(EncodeNumber(tag, o) + rest, e) == decode(rest, if o.None? then e else WithNumber(e, tag, o.value))
  {
    if o.None? {
      assert [] + rest == rest;
    } else {
      TagReads(tag, EncodeVarint(o.value), rest, e);
      Varint64RoundTrip(o.value, rest);
      assert GoesOn(decode, EncodeNumber(tag, o) + rest, e);
    }
  }

  lemma LevelReads(tag: uint32, level: uint32, more: Bytes, rest: Bytes, e: Edit)
    requires level < NUM_LEVELS && (tag == COMPACT_POINTER || tag == DELETED_FILE || tag == NEW_FILE)
    ensures DecodeOne(EncodeVarint(tag) + (EncodeVarint(level) + more) + rest, e) == DecodeAtLevel(tag, level, more + rest, e)
  {
    TagReads(tag, EncodeVarint(level) + more, rest, e);
    assert EncodeVarint(level) + more + rest == EncodeVarint(level) + (more + rest);
    LevelReadsBack(level, more + rest);
    FieldAtLevel(tag, EncodeVarint(level) + (more + rest), e, level, more + rest);
  }

  lemma LevelReadsBack(level: uint32, rest: Bytes)
    requires level < NUM_LEVELS
    ensures GetLevel(EncodeVarint(level) + rest) == Some(Decoded(level, rest))
  {
    Varint32RoundTrip(level, rest);
  }

  lemma FieldAtLevel(tag: uint32, input: Bytes, e: Edit, level: uint32, rest: Bytes)
    requires GetLevel(input) == Some(Decoded(level, rest))
    requires tag == COMPACT_POINTER || tag == DELETED_FILE || tag == NEW_FILE
    ensures DecodeField(tag, input, e) == DecodeAtLevel(tag, level, rest, e)
  {
  }

  lemma FileReads(f: StoredFile, rest: Bytes)
    requires f.smallest != [] && f.largest != []
    ensures GetFile(EncodeFile(f) + rest) == Some(Decoded(f, rest))
  {
    var s, l := PutLengthPrefixedSlice(f.smallest), PutLengthPrefixedSlice(f.largest);
    var n, z := EncodeVarint(f.number), EncodeVarint(f.size);
    Nested(n, z, s, l, rest);
    Varint64RoundTrip(f.number, z + (s + (l + rest)));
    Varint64RoundTrip(f.size, s + (l + rest));
    LengthPrefixedRoundTrip(f.smallest, l + rest);
    LengthPrefixedRoundTrip(f.largest, rest);
  }

  lemma Nested(a: Bytes, b: Bytes, c: Bytes, d: Bytes, rest: Bytes)
    ensures a + (b + (c + d)) + rest == a + (b + (c + (d + rest)))
  {
  }

  lemma PointerReads(p: Pointer, rest: Bytes, e: Edit, decode: (Bytes, Edit) -> Option<Edit>)
    requires IsDecoder(decode) && ValidPointer(p)
    ensures decode(EncodePointer(p) + rest, e) == decode(rest, e.(compactPointers := e.compactPointers + [p]))
  {
    LevelReads(COMPACT_POINTER, p.level, PutLengthPrefixedSlice(p.key), rest, e);
    LengthPrefixedRoundTrip(p.key, rest);
    assert GoesOn(decode, EncodePointer(p) + rest, e);
  }

  lemma DeletedReads(d: Deleted, rest: Bytes, e: Edit, decode: (Bytes, Edit) -> Option<Edit>)
    requires IsDecoder(decode) && ValidDeleted(d)
    ensures decode(EncodeDeleted(d) + rest, e) == decode(rest, e.(deletedFiles := InsertDeleted(e.deletedFiles, d)))
  {
    LevelReads(DELETED_FILE, d.level, EncodeVarint(d.number), rest, e);
    Varint64RoundTrip(d.number, rest);
    assert GoesOn(decode, EncodeDeleted(d) + rest, e);
  }

  lemma AddedReads(a: Added, rest: Bytes, e: Edit, decode: (Bytes, Edit) -> Option<Edit>)
    requires IsDecoder(decode) && ValidAdded(a)
    ensures decode(EncodeAdded(a) + rest, e) == decode(rest, e.(newFiles := e.newFiles + [a]))
  {
    LevelReads(NEW_FILE, a.level, EncodeFile(a.file), rest, e);
    FileReads(a.file, rest);
    assert GoesOn(decode, EncodeAdded(a) + rest, e);
  }

  lemma {:induction false} InsertLast(ds: seq<Deleted>, d: Deleted)
    requires forall i :: 0 <= i < |ds| ==> DeletedLess(ds[i], d)
    ensures InsertDeleted(ds, d) == ds + [d]
  {
    if ds != [] {
      InsertLast(ds[1..], d);
    }
  }

  lemma {:induction false} PointersRead(ps: seq<Pointer>, k: nat, rest: Bytes, e: Edit, decode: (Bytes, Edit) -> Option<Edit>)
    requires IsDecoder(decode) && k <= |ps| && forall i :: 0 <= i < |ps| ==> ValidPointer(ps[i])
    ensures decode(EncodeAll(EncodePointer, ps, k) + rest, e)
         == decode(rest, e.(compactPointers := e.compactPointers + ps[k..]))
    decreases |ps| - k
  {
    if k == |ps| {
      assert [] + rest == rest && e.compactPointers + ps[k..] == e.compactPointers;
    } else {
      var more := EncodeAll(EncodePointer, ps, k + 1);
      assert EncodePointer(ps[k]) + more + rest == EncodePointer(ps[k]) + (more + rest);
      PointerReads(ps[k], more + rest, e, decode);
      PointersRead(ps, k + 1, rest, e.(compactPointers := e.compactPointers + [ps[k]]), decode);
      assert e.compactPointers + [ps[k]] + ps[k + 1..] == e.compactPointers + ps[k..];
    }
  }

  lemma {:induction false} DeletedsRead(ds: seq<Deleted>, k: nat, rest: Bytes, e: Edit, decode: (Bytes, Edit) -> Option<Edit>)
    requires IsDecoder(decode) && k <= |ds| && Sorted(ds) && forall i :: 0 <= i < |ds| ==> ValidDeleted(ds[i])
    requires e.deletedFiles == ds[..k]
    ensures decode(EncodeAll(EncodeDeleted, ds, k) + rest, e) == decode(rest, e.(deletedFiles := ds))
    decreases |ds| - k
  {
    if k == |ds| {
      assert [] + rest == rest && ds[..k] == ds;
    } else {
      var more := EncodeAll(EncodeDeleted, ds, k + 1);
      assert EncodeDeleted(ds[k]) + more + rest == EncodeDeleted(ds[k]) + (more + rest);
      DeletedReads(ds[k], more + rest, e, decode);
      InsertLast(ds[..k], ds[k]);
      assert ds[..k] + [ds[k]] == ds[..k + 1];
      DeletedsRead(ds, k + 1, rest, e.(deletedFiles := ds[..k + 1]), decode);
    }
  }

  lemma {:induction false} AddedsRead(fs: seq<Added>, k: nat, rest: Bytes, e: Edit, decode: (Bytes, Edit) -> Option<Edit>)
    requires IsDecoder(decode) && k <= |fs| && forall i :: 0 <= i < |fs| ==> ValidAdded(fs[i])
    ensures decode(EncodeAll(EncodeAdded, fs, k) + rest, e) == decode(rest, e.(newFiles := e.newFiles + fs[k..]))
    decreases |fs| - k
  {
    if k == |fs| {
      assert [] + rest == rest && e.newFiles + fs[k..] == e.newFiles;
    } else {
      var more := EncodeAll(EncodeAdded, fs, k + 1);
      assert EncodeAdded(fs[k]) + more + rest == EncodeAdded(fs[k]) + (more + rest);
      AddedReads(fs[k], more + rest, e, decode);
      AddedsRead(fs, k + 1, rest, e.(newFiles := e.newFiles + [fs[k]]), decode);
      assert e.newFiles + [fs[k]] + fs[k + 1..] == e.newFiles + fs[k..];
    }
  }

  lemma ListsRead(e: Edit, before: Edit, decode: (Bytes, Edit) -> Option<Edit>)
    requires IsDecoder(decode) && ValidEdit(e) && before.deletedFiles == [] && before.newFiles == []
    ensures decode(EncodeLists(e), before)
         == decode([], before.(compactPointers := before.compactPointers + e.compactPointers,
                               deletedFiles := e.deletedFiles, newFiles := e.newFiles))
  {
    var deleted, added := EncodeAll(EncodeDeleted, e.deletedFiles, 0), EncodeAll(EncodeAdded, e.newFiles, 0);
    PointersRead(e.compactPointers, 0, deleted + added, before, decode);
    var b1 := before.(compactPointers := before.compactPointers + e.compactPointers);
    assert e.compactPointers[0..] == e.compactPointers;
    DeletedsRead(e.deletedFiles, 0, added, b1, decode);
    assert added + [] == added;
    AddedsRead(e.newFiles, 0, [], b1.(deletedFiles := e.deletedFiles), decode);
    assert [] + e.newFiles[0..] == e.newFiles;
  }

  // The fields that have one value, read back before the lists.
  lemma SinglesRead(e: Edit, rest: Bytes, before: Edit, decode: (Bytes, Edit) -> Option<Edit>) returns (after: Edit)
    requires IsDecoder(decode) && before == Cleared(before)
    ensures after == before.(comparator := e.comparator, logNumber := e.logNumber, prevLogNumber := e.prevLogNumber,
                             nextFileNumber := e.nextFileNumber, lastSequence := e.lastSequence)
    ensures decode(EncodeName(e.comparator)
                   + (EncodeNumber(LOG_NUMBER, e.logNumber)
                   + (EncodeNumber(PREV_LOG_NUMBER, e.prevLogNumber)
                   + (EncodeNumber(NEXT_FILE_NUMBER, e.nextFileNumber)
                   + (EncodeNumber(LAST_SEQUENCE, e.lastSequence) + rest)))), before)
         == decode(rest, after)
  {
    var r4 := EncodeNumber(LAST_SEQUENCE, e.lastSequence) + rest;
    var r3 := EncodeNumber(NEXT_FILE_NUMBER, e.nextFileNumber) + r4;
    var r2 := EncodeNumber(PREV_LOG_NUMBER, e.prevLogNumber) + r3;
    var r1 := EncodeNumber(LOG_NUMBER, e.logNumber) + r2;
    NameReads(e.comparator, r1, before, decode);
    var e1 := before.(comparator := e.comparator);
    NumberReads(LOG_NUMBER, e.logNumber, r2, e1, decode);
    var e2 := e1.(logNumber := e.logNumber);
    NumberReads(PREV_LOG_NUMBER, e.prevLogNumber, r3, e2, decode);
    var e3 := e2.(prevLogNumber := e.prevLogNumber);
    NumberReads(NEXT_FILE_NUMBER, e.nextFileNumber, r4, e3, decode);
    var e4 := e3.(nextFileNumber := e.nextFileNumber);
    NumberReads(LAST_SEQUENCE, e.lastSequence, rest, e4, decode);
    after := e4.(lastSequence := e.lastSequence);
  }

  // Decoding an encoded edit gives it back, but for the compaction pointers of an edit object
  // that is used again.
  lemma EditRoundTrip(e: Edit, before: Edit)
    requires ValidEdit(e)
    ensures DecodeFields(EncodeEdit(e), Cleared(before))
         == Some(e.(compactPointers := before.compactPointers + e.compactPointers))
  {
    DecodeFieldsIsDecoder();
    var b := Cleared(before);
    var after := SinglesRead(e, EncodeLists(e), b, DecodeFields);
    ListsRead(e, after, DecodeFields);
  }

  // ---------- the code ----------

  // One of the three loops of EncodeTo.
  method AppendAll<T>(dst: Bytes, one: T -> Bytes, items: seq<T>) returns (r: Bytes)
    ensures r == dst + EncodeAll(one, items, 0)
  {
    r := dst;
    var i := 0;
    while i < |items|
      invariant i <= |items| && r + EncodeAll(one, items, i) == dst + EncodeAll(one, items, 0)
    {
      ghost var more := EncodeAll(one, items, i + 1);
      assert r + one(items[i]) + more == r + (one(items[i]) + more);
      r := r + one(items[i]);
      i := i + 1;
    }
    assert r + [] == r;
  }

  // An option is a value with its has_ flag.
  class VersionEdit {
    var comparator: Option<Slice>
    var logNumber: Option<uint64>
    var prevLogNumber: Option<uint64>
    var nextFileNumber: Option<uint64>
    var lastSequence: Option<uint64>
    var compactPointers: seq<Pointer>
    var deletedFiles: seq<Deleted>
    var newFiles: seq<Added>

    constructor ()
      ensures Value() == Edit(None, None, None, None, None, [], [], [])
    {
      comparator, logNumber, prevLogNumber, nextFileNumber, lastSequence := None, None, None, None, None;
      compactPointers, deletedFiles, newFiles := [], [], [];
    }

    function Value(): Edit
      reads this
    {
      Edit(comparator, logNumber, prevLogNumber, nextFileNumber, lastSequence, compactPointers, deletedFiles, newFiles)
    }

    method Clear()
      modifies this
      ensures Value() == Cleared(old(Value()))
    {
      comparator, logNumber, prevLogNumber, nextFileNumber, lastSequence := None, None, None, None, None;
      deletedFiles, newFiles := [], [];
    }

    method EncodeTo(dst: Bytes) returns (r: Bytes)
      ensures r == dst + EncodeEdit(Value())
    {
      ghost var e := Value();
      r := AppendName(dst, comparator);
      r := AppendNumber(r, LOG_NUMBER, logNumber);
      r := AppendNumber(r, PREV_LOG_NUMBER, prevLogNumber);
      r := AppendNumber(r, NEXT_FILE_NUMBER, nextFileNumber);
      r := AppendNumber(r, LAST_SEQUENCE, lastSequence);
      FiveFirst(dst, EncodeName(e.comparator), EncodeNumber(LOG_NUMBER, e.logNumber),
                EncodeNumber(PREV_LOG_NUMBER, e.prevLogNumber), EncodeNumber(NEXT_FILE_NUMBER, e.nextFileNumber),
                EncodeNumber(LAST_SEQUENCE, e.lastSequence), EncodeLists(e));
      ghost var singles := r;
      r := AppendAll(r, EncodePointer, compactPointers);
      r := AppendAll(r, EncodeDeleted, deletedFiles);
      r := AppendAll(r, EncodeAdded, newFiles);
      ThreeLast(singles, EncodeAll(EncodePointer, e.compactPointers, 0), EncodeAll(EncodeDeleted, e.deletedFiles, 0),
                EncodeAll(EncodeAdded, e.newFiles, 0));
    }

    // A field after its tag.
    method DecodeTagged(tag: nat, input: Bytes) returns (rest: Option<Bytes>)
      modifies this
      ensures match DecodeField(tag, input, old(Value()))
              case None => rest == None
              case Some(p) => rest == Some(p.rest) && Value() == p.edit
    {
      rest := None;
      if tag == COMPARATOR {
        var str := GetLengthPrefixedSlice(input);
        if str.Some? {
          comparator, rest := Some(str.value.value), Some(str.value.rest);
        }
      } else if tag == LOG_NUMBER || tag == PREV_LOG_NUMBER || tag == NEXT_FILE_NUMBER || tag == LAST_SEQUENCE {
        var number := GetVarint64(input);
        if number.Some? {
          SetNumber(tag, number.value.value);
          rest := Some(number.value.rest);
        }
      } else if tag == COMPACT_POINTER || tag == DELETED_FILE || tag == NEW_FILE {
        var level := GetLevel(input);
        if level.Some? {
          rest := DecodeItem(tag, level.value.value, level.value.rest);
        }
      }
    }

    method SetNumber(tag: nat, n: uint64)
      modifies this
      ensures Value() == WithNumber(old(Value()), tag, n)
    {
      if tag == LOG_NUMBER {
        logNumber := Some(n);
      } else if tag == PREV_LOG_NUMBER {
        prevLogNumber := Some(n);
      } else if tag == NEXT_FILE_NUMBER {
        nextFileNumber := Some(n);
      } else {
        lastSequence := Some(n);
      }
    }

    method DecodeItem(tag: nat, level: uint32, input: Bytes) returns (rest: Option<Bytes>)
      modifies this
      ensures match DecodeAtLevel(tag, level, input, old(Value()))
              case None => rest == None
              case Some(p) => rest == Some(p.rest) && Value() == p.edit
    {
      rest := None;
      if tag == COMPACT_POINTER {
        var key := GetInternalKey(input);
        if key.Some? {
          compactPointers := compactPointers + [Pointer(level, key.value.value)];
          rest := Some(key.value.rest);
        }
      } else if tag == DELETED_FILE {
        var number := GetVarint64(input);
        if number.Some? {
          deletedFiles := InsertDeleted(deletedFiles, Deleted(level, number.value.value));
          rest := Some(number.value.rest);
        }
      } else {
        var f := GetFile(input);
        if f.Some? {
          newFiles := newFiles + [Added(level, f.value.value)];
          rest := Some(f.value.rest);
        }
      }
    }

    method DecodeFrom(src: Bytes) returns (ok: bool)
      modifies this
      ensures ok <==> DecodeFields(src, Cleared(old(Value()))).Some?
      ensures ok ==> Value() == DecodeFields(src, Cleared(old(Value()))).value
    {
      Clear();
      ghost var start := Value();
      var input := src;
      while true
        invariant DecodeFields(src, start) == DecodeFields(input, Value())
        decreases |input|
      {
        var tag := GetVarint32(input);
        if tag.None? {
          break;
        }
        VarintShortens(input, 0, 0);
        FieldShortens(tag.value.value, tag.value.rest, Value());
        var rest := DecodeTagged(tag.value.value, tag.value.rest);
        if rest.None? {
          return false;
        }
        input := rest.value;
      }
      // Anything left is an invalid tag.
      ok := input == [];
    }
  }

  method AppendName(dst: Bytes, o: Option<Slice>) returns (r: Bytes)
    ensures r == dst + EncodeName(o)
  {
    r := dst;
    if o.Some? {
      r := r + EncodeVarint(COMPARATOR);
      r := r + PutLengthPrefixedSlice(o.value);
    }
  }

  method AppendNumber(dst: Bytes, tag: uint32, o: Option<uint64>) returns (r: Bytes)
    ensures r == dst + EncodeNumber(tag, o)
  {
    r := dst;
    if o.Some? {
      r := r + EncodeVarint(tag);
      r := r + EncodeVarint(o.value);
    }
  }

  lemma Associates(a: Bytes, b: Bytes, c: Bytes)
    ensures a + b + c == a + (b + c)
  {
  }

  lemma FiveFirst(dst: Bytes, a: Bytes, b: Bytes, c: Bytes, d: Bytes, e: Bytes, rest: Bytes)
    ensures dst + a + b + c + d + e + rest == dst + (a + (b + (c + (d + (e + rest)))))
  {
    Associates(dst + a + b + c + d, e, rest);
    Associates(dst + a + b + c, d, e + rest);
    Associates(dst + a + b, c, d + (e + rest));
    Associates(dst + a, b, c + (d + (e + rest)));
    Associates(dst, a, b + (c + (d + (e + rest))));
  }

  lemma ThreeLast(dst: Bytes, a: Bytes, b: Bytes, c: Bytes)
    ensures dst + a + b + c == dst + (a + (b + c))
  {
    Associates(dst + a, b, c);
    Associates(dst, a, b + c);
  }
}
