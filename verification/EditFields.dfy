/** Which bytes are a version edit (db/version_edit.cc, VersionEdit::DecodeFrom): fields, each a
  tag and what belongs to it, up to the end. Anything else is refused. */
module EditFields {
  import opened Wrappers
  import opened Keys
  import opened Coding
  import opened Varints
  import opened VersionEdits

  datatype FieldValue =
    | Name(name: Slice) | Log(n: uint64) | NextFile(n: uint64) | Last(n: uint64) | PrevLog(n: uint64)
    | At(pointer: Pointer) | Gone(deleted: Deleted) | New(added: Added)

  function TagOf(fv: FieldValue): nat {
    match fv
    case Name(_) => 1
    case Log(_) => 2
    case NextFile(_) => 3
    case Last(_) => 4
    case At(_) => 5
    case Gone(_) => 6
    case New(_) => 7
    case PrevLog(_) => 9
  }

  // A level that exists; an internal key that is not empty.
  predicate IsLevel(b: Bytes, level: nat) {
    IsNumber32(b, level) && level < 7
  }

  ghost predicate IsKey(b: Bytes, p: Bytes, key: Slice) {
    IsSlice(b, p, key) && key != []
  }

  ghost predicate IsFile(b: Bytes, n: Bytes, z: Bytes, x: Bytes, p: Bytes, y: Bytes, q: Bytes, f: StoredFile) {
    && b == n + (z + (x + y)) && IsNumber64(n, f.number) && IsNumber64(z, f.size)
    && IsKey(x, p, f.smallest) && IsKey(y, q, f.largest)
  }

  ghost predicate FileBytes(b: Bytes, f: StoredFile) {
    exists n, z, x, p, y, q :: IsFile(b, n, z, x, p, y, q, f)
  }

  ghost predicate PointerBytes(b: Bytes, l: Bytes, x: Bytes, p: Bytes, pointer: Pointer) {
    b == l + x && IsLevel(l, pointer.level) && IsKey(x, p, pointer.key)
  }

  ghost predicate DeletedBytes(b: Bytes, l: Bytes, n: Bytes, d: Deleted) {
    b == l + n && IsLevel(l, d.level) && IsNumber64(n, d.number)
  }

  ghost predicate AddedBytes(b: Bytes, l: Bytes, x: Bytes, a: Added) {
    b == l + x && IsLevel(l, a.level) && FileBytes(x, a.file)
  }

  // What belongs to a tag.
  ghost predicate IsBody(b: Bytes, fv: FieldValue) {
    match fv
    case Name(s) => exists p :: IsSlice(b, p, s)
    case At(pointer) => exists l, x, p :: PointerBytes(b, l, x, p, pointer)
    case Gone(d) => exists l, n :: DeletedBytes(b, l, n, d)
    case New(a) => exists l, x :: AddedBytes(b, l, x, a)
    case _ => IsNumber64(b, fv.n)
  }

  ghost predicate IsField(b: Bytes, t: Bytes, body: Bytes, fv: FieldValue) {
    b == t + body && IsNumber32(t, TagOf(fv)) && IsBody(body, fv)
  }

  // What a field does to the edit: a later value replaces an earlier one, items are added.
  function With(e: Edit, fv: FieldValue): Edit {
    match fv
    case Name(s) => e.(comparator := Some(s))
    case Log(n) => e.(logNumber := Some(n))
    case PrevLog(n) => e.(prevLogNumber := Some(n))
    case NextFile(n) => e.(nextFileNumber := Some(n))
    case Last(n) => e.(lastSequence := Some(n))
    case At(p) => e.(compactPointers := e.compactPointers + [p])
    case Gone(d) => e.(deletedFiles := InsertDeleted(e.deletedFiles, d))
    case New(a) => e.(newFiles := e.newFiles + [a])
  }

  // The deleted files are kept as a sorted set.
  lemma {:induction false} InsertDeletedMeans(ds: seq<Deleted>, d: Deleted)
    requires Sorted(ds)
    ensures Sorted(InsertDeleted(ds, d)) && forall x :: x in InsertDeleted(ds, d) <==> x in ds || x == d
    decreases |ds|
  {
    if ds != [] && !DeletedLess(d, ds[0]) && d != ds[0] {
      InsertDeletedMeans(ds[1..], d);
      var more := InsertDeleted(ds[1..], d);
      forall i, j | 0 <= i < j < |[ds[0]] + more|
        ensures DeletedLess(([ds[0]] + more)[i], ([ds[0]] + more)[j])
      {
        assert more[j - 1] in more;
        assert i > 0 ==> DeletedLess(more[i - 1], more[j - 1]);
      }
      assert ds == [ds[0]] + ds[1..];
    } else if ds != [] && d != ds[0] {
      forall i, j | 0 <= i < j < |[d] + ds|
        ensures DeletedLess(([d] + ds)[i], ([d] + ds)[j])
      {
        assert i > 0 ==> DeletedLess(ds[i - 1], ds[j - 1]);
        assert i == 0 && j > 1 ==> DeletedLess(ds[0], ds[j - 1]);
      }
    }
  }

  // ---------- the parts of a field ----------

  lemma LevelMeans(b: Bytes, level: nat, rest: Bytes)
    requires IsLevel(b, level)
    ensures GetLevel(b + rest) == Some(Decoded(level, rest))
  {
    Varint32Means(b, rest);
  }

  lemma KeyMeans(b: Bytes, p: Bytes, key: Slice, rest: Bytes)
    requires IsKey(b, p, key)
    ensures GetInternalKey(b + rest) == Some(Decoded(key, rest))
  {
    SliceMeans(b, p, key, rest);
  }

  lemma FileMeans(b: Bytes, f: StoredFile, rest: Bytes)
    requires FileBytes(b, f)
    ensures GetFile(b + rest) == Some(Decoded(f, rest))
  {
    var n, z, x, p, y, q :| IsFile(b, n, z, x, p, y, q, f);
    Nested(n, z, x, y, rest);
    Varint64Means(n, z + (x + (y + rest)));
    Varint64Means(z, x + (y + rest));
    KeyMeans(x, p, f.smallest, y + rest);
    KeyMeans(y, q, f.largest, rest);
  }

  lemma KeyTakes(s: Bytes) returns (b: Bytes, p: Bytes)
    ensures GetInternalKey(s).Some? ==> s == b + GetInternalKey(s).value.rest && IsKey(b, p, GetInternalKey(s).value.value)
  {
    b, p := SliceTakes(s);
  }

  lemma FileTakes(s: Bytes) returns (b: Bytes)
    ensures GetFile(s).Some? ==> s == b + GetFile(s).value.rest && FileBytes(b, GetFile(s).value.value)
  {
    b := [];
    if GetFile(s).Some? {
      var f, rest := GetFile(s).value.value, GetFile(s).value.rest;
      var n := Number64Takes(s);
      var s1 := DecodeVarint64(s).value.rest;
      var z := Number64Takes(s1);
      var s2 := DecodeVarint64(s1).value.rest;
      var x, p := KeyTakes(s2);
      var y, q := KeyTakes(GetInternalKey(s2).value.rest);
      b := n + (z + (x + y));
      Nested(n, z, x, y, rest);
      assert IsFile(b, n, z, x, p, y, q, f);
    }
  }

  // ---------- one field ----------

  lemma PointerMeans(b: Bytes, pointer: Pointer, rest: Bytes, e: Edit)
    requires IsBody(b, At(pointer))
    ensures DecodeField(5, b + rest, e) == Some(Parsed(With(e, At(pointer)), rest))
  {
    var l, x, p :| PointerBytes(b, l, x, p, pointer);
    assert b + rest == l + (x + rest);
    LevelMeans(l, pointer.level, x + rest);
    KeyMeans(x, p, pointer.key, rest);
  }

  lemma GoneMeans(b: Bytes, d: Deleted, rest: Bytes, e: Edit)
    requires IsBody(b, Gone(d))
    ensures DecodeField(6, b + rest, e) == Some(Parsed(With(e, Gone(d)), rest))
  {
    var l, n :| DeletedBytes(b, l, n, d);
    assert b + rest == l + (n + rest);
    LevelMeans(l, d.level, n + rest);
    Varint64Means(n, rest);
  }

  lemma NewMeans(b: Bytes, a: Added, rest: Bytes, e: Edit)
    requires IsBody(b, New(a))
    ensures DecodeField(7, b + rest, e) == Some(Parsed(With(e, New(a)), rest))
  {
    var l, x :| AddedBytes(b, l, x, a);
    assert b + rest == l + (x + rest);
    LevelMeans(l, a.level, x + rest);
    FieldAtLevel(7, b + rest, e, a.level, x + rest);
    FileMeans(x, a.file, rest);
    FileIsAdded(a, x + rest, rest, e);
  }

  lemma FileIsAdded(a: Added, input: Bytes, rest: Bytes, e: Edit)
    requires GetFile(input) == Some(Decoded(a.file, rest))
    ensures DecodeAtLevel(7, a.level, input, e) == Some(Parsed(e.(newFiles := e.newFiles + [a]), rest))
  {
  }

  lemma SingleMeans(b: Bytes, fv: FieldValue, rest: Bytes, e: Edit)
    requires IsBody(b, fv) && !fv.At? && !fv.Gone? && !fv.New?
    ensures DecodeField(TagOf(fv), b + rest, e) == Some(Parsed(With(e, fv), rest))
  {
    if fv.Name? {
      var p :| IsSlice(b, p, fv.name);
      SliceMeans(b, p, fv.name, rest);
    } else {
      Varint64Means(b, rest);
    }
  }

  lemma BodyMeans(b: Bytes, fv: FieldValue, rest: Bytes, e: Edit)
    requires IsBody(b, fv)
    ensures DecodeField(TagOf(fv), b + rest, e) == Some(Parsed(With(e, fv), rest))
  {
    match fv
    case At(pointer) => PointerMeans(b, pointer, rest, e);
    case Gone(d) => GoneMeans(b, d, rest, e);
    case New(a) => NewMeans(b, a, rest, e);
    case _ => SingleMeans(b, fv, rest, e);
  }

  // What was decoded behind a level.
  lemma ItemTakes(tag: nat, level: nat, l: Bytes, input: Bytes, e: Edit) returns (b: Bytes, fv: FieldValue)
    requires IsLevel(l, level) && (tag == 5 || tag == 6 || tag == 7)
    requires DecodeAtLevel(tag, level, input, e).Some?
    ensures input == b + DecodeAtLevel(tag, level, input, e).value.rest
    ensures TagOf(fv) == tag && IsBody(l + b, fv)
  {
    if tag == 5 {
      var p;
      b, p := KeyTakes(input);
      fv := At(Pointer(level, GetInternalKey(input).value.value));
      assert PointerBytes(l + b, l, b, p, fv.pointer);
    } else if tag == 6 {
      b := Number64Takes(input);
      fv := Gone(Deleted(level, DecodeVarint64(input).value.value));
      assert DeletedBytes(l + b, l, b, fv.deleted);
    } else {
      b := FileTakes(input);
      fv := New(Added(level, GetFile(input).value.value));
      assert AddedBytes(l + b, l, b, fv.added);
    }
  }

  lemma BodyTakes(tag: nat, input: Bytes, e: Edit) returns (b: Bytes, fv: FieldValue)
    requires DecodeField(tag, input, e).Some?
    ensures input == b + DecodeField(tag, input, e).value.rest && TagOf(fv) == tag && IsBody(b, fv)
  {
    if tag == 1 {
      var p;
      b, p := SliceTakes(input);
      fv := Name(GetLengthPrefixedSlice(input).value.value);
    } else if tag == 5 || tag == 6 || tag == 7 {
      var l := Number32Takes(input);
      var level := GetLevel(input).value;
      var x;
      x, fv := ItemTakes(tag, level.value, l, level.rest, e);
      b := l + x;
    } else {
      b := Number64Takes(input);
      var n := DecodeVarint64(input).value.value;
      fv := if tag == 2 then Log(n) else if tag == 3 then NextFile(n) else if tag == 4 then Last(n) else PrevLog(n);
    }
  }

  lemma FieldMeans(b: Bytes, t: Bytes, body: Bytes, fv: FieldValue, rest: Bytes, e: Edit)
    requires IsField(b, t, body, fv)
    ensures DecodeOne(b + rest, e) == Some(Parsed(With(e, fv), rest)) && b + rest != []
  {
    assert b + rest == t + (body + rest);
    Varint32Means(t, body + rest);
    BodyMeans(body, fv, rest, e);
  }

  lemma FieldTakes(input: Bytes, e: Edit) returns (b: Bytes, t: Bytes, body: Bytes, fv: FieldValue)
    requires DecodeOne(input, e).Some?
    ensures input == b + DecodeOne(input, e).value.rest && IsField(b, t, body, fv) && b != []
  {
    t := Number32Takes(input);
    var d := DecodeFrom(input, 0, 0).value;
    body, fv := BodyTakes(d.value, d.rest, e);
    b := t + body;
  }

  // ---------- the whole record ----------

  function Filled(e: Edit, fields: seq<FieldValue>): Edit
    decreases |fields|
  {
    if fields == [] then e else Filled(With(e, fields[0]), fields[1..])
  }

  ghost predicate Begins(input: Bytes, b: Bytes, t: Bytes, body: Bytes, rest: Bytes, fv: FieldValue) {
    input == b + rest && IsField(b, t, body, fv)
  }

  // The bytes are these fields, one after the other.
  ghost predicate AreFields(input: Bytes, fields: seq<FieldValue>)
    decreases |fields|
  {
    if fields == [] then input == []
    else exists b, t, body, rest :: Begins(input, b, t, body, rest, fields[0]) && AreFields(rest, fields[1..])
  }

  lemma LoopStep(input: Bytes, e: Edit)
    ensures DecodeOne(input, e).Some? ==>
              DecodeFields(input, e) == DecodeFields(DecodeOne(input, e).value.rest, DecodeOne(input, e).value.edit)
    ensures DecodeOne(input, e).None? ==> DecodeFields(input, e) == if input == [] then Some(e) else None
  {
  }

  lemma {:induction false} FieldsDecode(input: Bytes, fields: seq<FieldValue>, e: Edit)
    requires AreFields(input, fields)
    ensures DecodeFields(input, e) == Some(Filled(e, fields))
    decreases |fields|
  {
    LoopStep(input, e);
    if fields != [] {
      var b, t, body, rest :| Begins(input, b, t, body, rest, fields[0]) && AreFields(rest, fields[1..]);
      FieldMeans(b, t, body, fields[0], rest, e);
      FieldsDecode(rest, fields[1..], With(e, fields[0]));
    }
  }

  lemma FieldsMore(b: Bytes, t: Bytes, body: Bytes, fv: FieldValue, rest: Bytes, more: seq<FieldValue>)
    requires IsField(b, t, body, fv) && AreFields(rest, more)
    ensures AreFields(b + rest, [fv] + more)
  {
    var fields := [fv] + more;
    assert fields[1..] == more && Begins(b + rest, b, t, body, rest, fields[0]);
  }

  lemma {:induction false} DecodedAreFields(input: Bytes, e: Edit) returns (fields: seq<FieldValue>)
    requires DecodeFields(input, e).Some?
    ensures AreFields(input, fields)
    decreases |input|
  {
    LoopStep(input, e);
    if DecodeOne(input, e).None? {
      fields := [];
    } else {
      var b, t, body, fv := FieldTakes(input, e);
      var p := DecodeOne(input, e).value;
      var more := DecodedAreFields(p.rest, p.edit);
      FieldsMore(b, t, body, fv, p.rest, more);
      fields := [fv] + more;
    }
  }

  // A record is an edit exactly when its bytes are fields; the edit is what they say.
  lemma DecodeMeans(input: Bytes, e: Edit, out: Edit)
    ensures DecodeFields(input, e) == Some(out) <==> exists fields :: AreFields(input, fields) && out == Filled(e, fields)
  {
    if DecodeFields(input, e).Some? {
      var fields := DecodedAreFields(input, e);
      FieldsDecode(input, fields, e);
    }
    if fields :| AreFields(input, fields) && out == Filled(e, fields) {
      FieldsDecode(input, fields, e);
    }
  }
}
