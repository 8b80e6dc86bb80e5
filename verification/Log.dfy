/** The log writer (db/log_writer.cc) and reader (db/log_reader.cc) as they run, against the
  functions of LogFormat. A file is a byte string: a read delivers what it asks for unless
  the file ends first. */
module Log {
  import opened Wrappers
  import opened Keys
  import opened Coding
  import opened LogFormat
  import opened LogSoundness
  import Crc

  // The checksum function of the format is the masked CRC32C of the type byte and payload.
  predicate MaskedCrcAt(crc: Checksum, body: Bytes) {
    crc(body) == EncodeFixed32(Crc.Mask(Crc.Value(body)))
  }

  ghost predicate MaskedCrc(crc: Checksum) {
    forall body :: MaskedCrcAt(crc, body)
  }

  lemma ChecksumAgrees(crc: Checksum, stored: Bytes, body: Bytes)
    requires MaskedCrc(crc) && |stored| == 4
    ensures stored == crc(body) <==> Crc.Unmask(DecodeFixed32(stored)) == Crc.Value(body)
  {
    assert MaskedCrcAt(crc, body);
    Fixed32Encodes(stored);
    Crc.UnmaskInvertsMask(Crc.Value(body));
    Crc.MaskInvertsUnmask(DecodeFixed32(stored));
    Fixed32Decodes(Crc.Mask(Crc.Value(body)));
  }

  lemma Fixed32Decodes(v: uint32)
    ensures DecodeFixed32(EncodeFixed32(v)) == v
  {
    Fixed32RoundTrip(v, []);
    assert EncodeFixed32(v) + [] == EncodeFixed32(v);
  }

  lemma Associates(a: Bytes, b: Bytes, c: Bytes)
    ensures a + b + c == a + (b + c)
  {
  }

  lemma SliceOfSlice(s: Bytes, p: nat, q: nat, a: nat, b: nat)
    requires p <= q <= |s| && a <= b <= q - p
    ensures s[p..q][a..b] == s[p + a..p + b]
  {
    var t, u := s[p..q][a..b], s[p + a..p + b];
    assert forall i :: 0 <= i < b - a ==> t[i] == u[i];
  }

  lemma SameOffset(a: nat, b: nat, n: nat)
    requires a % BLOCK == b % BLOCK
    ensures (a + n) % BLOCK == (b + n) % BLOCK
  {
    assert a + n - (b + n) == (a / BLOCK - b / BLOCK) * BLOCK;
  }

  // `all` is the function Fragments of this checksum, through its recursion.
  predicate FragmentsAt(crc: Checksum, all: (nat, Bytes, bool) -> Bytes, p: nat, data: Bytes, begin: bool) {
    var n, one := FragmentLength(p, |data|), Fragment(crc, p, data, begin);
    all(p, data, begin) == if n == |data| then one else one + all(p + |one|, data[n..], false)
  }

  ghost predicate AllAt(crc: Checksum, all: (nat, Bytes, bool) -> Bytes) {
    forall p: nat, data: Bytes, begin: bool :: FragmentsAt(crc, all, p, data, begin)
  }

  function AllFragments(crc: Checksum): (nat, Bytes, bool) -> Bytes {
    (p, data, begin) => Fragments(crc, p, data, begin)
  }

  lemma FragmentsRecur(crc: Checksum, p: nat, data: Bytes, begin: bool)
    ensures FragmentsAt(crc, AllFragments(crc), p, data, begin)
  {
  }

  lemma AllRecur(crc: Checksum)
    ensures AllAt(crc, AllFragments(crc))
  {
    forall p: nat, data: Bytes, begin: bool
      ensures FragmentsAt(crc, AllFragments(crc), p, data, begin)
    {
      FragmentsRecur(crc, p, data, begin);
    }
  }

  lemma AddedIsLaidOut(crc: Checksum, before: Bytes, slice: Bytes, after: Bytes)
    requires after == before + Fragments(crc, |before|, slice, true)
    ensures LaidOut(crc, after, slice, |before|, |after|)
  {
    assert At(after, |before|, Fragments(crc, |before|, slice, true));
    RecordIsLaidOut(crc, after, |before|, slice);
  }

  // Once around the loop in AddRecord.
  lemma AddStep(crc: Checksum, all: (nat, Bytes, bool) -> Bytes, dest: Bytes, slice: Bytes, ptr: nat, begin: bool,
      n: nat, after: Bytes)
    requires ptr <= |slice| && AllAt(crc, all)
    requires n == FragmentLength(|dest|, |slice| - ptr) && after == dest + Fragment(crc, |dest|, slice[ptr..], begin)
    ensures dest + all(|dest|, slice[ptr..], begin)
         == if ptr + n < |slice| then after + all(|after|, slice[ptr + n..], false) else after
  {
    assert FragmentsAt(crc, all, |dest|, slice[ptr..], begin);
    assert slice[ptr..][n..] == slice[ptr + n..];
    Associates(dest, Fragment(crc, |dest|, slice[ptr..], begin), all(|after|, slice[ptr + n..], false));
  }

  lemma LeftoverIsPadding(p: nat, blockOffset: nat)
    requires blockOffset <= BLOCK && blockOffset % BLOCK == p % BLOCK
    ensures BLOCK - blockOffset < HEADER ==> Padding(p) == BLOCK - blockOffset && (p + (BLOCK - blockOffset)) % BLOCK == 0
    ensures BLOCK - blockOffset >= HEADER ==> Padding(p) == 0 && blockOffset == p % BLOCK
  {
    AfterPadding(p);
    if blockOffset < BLOCK {
      assert blockOffset % BLOCK == blockOffset;
    }
  }

  class Writer {
    var dest: Bytes
    var blockOffset: nat
    const tables: Crc.Tables
    // The CRCs of the five type bytes, computed once.
    const typeCrc: seq<Crc.Word>
    ghost const crc: Checksum

    ghost predicate Valid()
      reads this
    {
      && blockOffset <= BLOCK && blockOffset % BLOCK == |dest| % BLOCK
      && Crc.Extends(tables) && MaskedCrc(crc)
      && |typeCrc| == 5 && forall t: Byte :: t < 5 ==> typeCrc[t] == Crc.Extended(Crc.AllBits(false), [t])
    }

    // A file that already holds `contents`; an empty one for a new log.
    constructor (contents: Bytes, t: Crc.Tables, ghost checksum: Checksum)
      requires Crc.Extends(t) && MaskedCrc(checksum)
      ensures Valid() && dest == contents && crc == checksum
    {
      dest, blockOffset, tables, crc := contents, |contents| % BLOCK, t, checksum;
      typeCrc := seq(5, i requires 0 <= i < 5 => Crc.Extended(Crc.AllBits(false), [i]));
    }

    // The masked CRC of the record type and the payload.
    method StoredCrc(kind: Byte, data: Bytes) returns (r: Bytes)
      requires Valid() && kind < 5
      ensures r == crc([kind] + data)
    {
      var address: nat := *;
      var sum := Crc.Extend(tables, typeCrc[kind], data, address);
      Crc.ExtendComposes(Crc.AllBits(false), [kind], data);
      assert MaskedCrcAt(crc, [kind] + data);
      r := EncodeFixed32(Crc.Mask(Crc.ToUint32(sum)));
    }

    method EmitPhysicalRecord(kind: Byte, data: Bytes)
      requires Valid() && kind < 5 && blockOffset + HEADER + |data| <= BLOCK
      modifies this
      ensures Valid() && dest == old(dest) + Physical(crc, kind, data)
      ensures blockOffset == old(blockOffset) + HEADER + |data|
    {
      var stored := StoredCrc(kind, data);
      var buf := stored + [|data| % 256, |data| / 256, kind];
      Associates(dest, buf, data);
      SameOffset(blockOffset, |dest|, HEADER + |data|);
      dest := dest + buf;
      dest := dest + data;
      blockOffset := blockOffset + HEADER + |data|;
    }

    // Fill the trailer if no header fits.
    method SwitchBlock()
      requires Valid()
      modifies this
      ensures Valid() && dest == old(dest) + Zeros(Padding(|old(dest)|))
      ensures blockOffset + HEADER <= BLOCK && blockOffset == |dest| % BLOCK
    {
      LeftoverIsPadding(|dest|, blockOffset);
      var leftover := BLOCK - blockOffset;
      assert dest + Zeros(0) == dest;
      if leftover < HEADER {
        if leftover > 0 {
          dest := dest + Zeros(leftover);
        }
        blockOffset := 0;
      }
    }

    // One round of the loop in AddRecord.
    method AddFragment(data: Bytes, begin: bool) returns (n: nat)
      requires Valid()
      modifies this
      ensures Valid() && n == FragmentLength(|old(dest)|, |data|)
      ensures dest == old(dest) + Fragment(crc, |old(dest)|, data, begin)
    {
      AfterPadding(|dest|);
      SwitchBlock();
      var avail := BLOCK - blockOffset - HEADER;
      n := if |data| < avail then |data| else avail;
      var end := |data| == n;
      var kind := if begin && end then FULL else if begin then FIRST else if end then LAST else MIDDLE;
      Associates(old(dest), Zeros(Padding(|old(dest)|)), Physical(crc, kind, data[..n]));
      EmitPhysicalRecord(kind, data[..n]);
    }

    // The record is laid out behind what was there.
    method AddRecord(slice: Bytes)
      requires Valid()
      modifies this
      ensures Valid() && dest == old(dest) + Fragments(crc, |old(dest)|, slice, true)
      ensures LaidOut(crc, dest, slice, |old(dest)|, |dest|)
    {
      AllRecur(crc);
      AddFragments(slice, AllFragments(crc));
      AddedIsLaidOut(crc, old(dest), slice, dest);
    }

    method NextFragment(slice: Bytes, ptr: nat, begin: bool, ghost all: (nat, Bytes, bool) -> Bytes)
      returns (next: nat)
      requires Valid() && ptr <= |slice| && AllAt(crc, all)
      modifies this
      ensures Valid() && ptr <= next <= |slice|
      ensures old(dest + all(|dest|, slice[ptr..], begin))
           == if next < |slice| then dest + all(|dest|, slice[next..], false) else dest
      ensures ptr < next || ptr == |slice| || (|old(dest)| % BLOCK == BLOCK - HEADER && |dest| % BLOCK == 0)
    {
      var n := AddFragment(slice[ptr..], begin);
      AddStep(crc, all, old(dest), slice, ptr, begin, n, dest);
      if n == 0 && ptr < |slice| {
        FragmentProgress(|old(dest)|, |slice| - ptr);
      }
      next := ptr + n;
    }

    // The loop of AddRecord.
    method AddFragments(slice: Bytes, ghost all: (nat, Bytes, bool) -> Bytes)
      requires Valid() && AllAt(crc, all)
      modifies this
      ensures Valid() && dest == old(dest) + all(|old(dest)|, slice, true)
    {
      var ptr, begin := 0, true;
      ghost var target := dest + all(|dest|, slice, true);
      assert slice[0..] == slice;
      // A record of no bytes still gets one fragment.
      while begin || ptr < |slice|
        invariant Valid() && ptr <= |slice|
        invariant target == if begin || ptr < |slice| then dest + all(|dest|, slice[ptr..], begin) else dest
        decreases |slice| - ptr, begin, if |dest| % BLOCK == BLOCK - HEADER then 1 else 0
      {
        ptr := NextFragment(slice, ptr, begin, all);
        begin := false;
      }
    }
  }

  class Reader {
    const file: Bytes
    // How much of the file has been read, and the part of that still to be parsed.
    var filePos: nat
    var buffer: Bytes
    var eof: bool
    // Drops reported so far.
    var reports: nat
    ghost const crc: Checksum

    function Pos(): int
      reads this
    {
      filePos - |buffer|
    }

    ghost predicate Valid()
      reads this
    {
      && MaskedCrc(crc)
      && |buffer| <= filePos <= |file| && buffer == file[Pos()..filePos]
      && (eof ==> filePos == |file|)
      && (!eof ==> filePos % BLOCK == 0)
      && (buffer != [] ==> (eof <==> BlockEnd(Pos()) > |file|) && (!eof ==> filePos == BlockEnd(Pos())))
    }

    constructor (contents: Bytes, ghost checksum: Checksum)
      requires MaskedCrc(checksum)
      ensures Valid() && file == contents && Pos() == 0 && reports == 0 && crc == checksum
    {
      file, filePos, buffer, eof, reports, crc := contents, 0, [], false, 0, checksum;
      new;
      assert file[0..0] == [];
    }

    method ReportCorruption()
      modifies this`reports
      ensures reports == old(reports) + 1
    {
      reports := reports + 1;
    }

    // file_->Read(kBlockSize): the next block, or what is left of the file.
    method ReadBlock()
      requires Valid() && !eof && |buffer| < HEADER
      modifies this`filePos, this`buffer, this`eof
      ensures Valid() && Pos() == old(filePos) && (eof || |buffer| == BLOCK)
      ensures eof || filePos > old(filePos)
    {
      var n := if |file| - filePos < BLOCK then |file| - filePos else BLOCK;
      buffer := file[filePos..filePos + n];
      filePos := filePos + n;
      if |buffer| < BLOCK {
        eof := true;
      }
    }

    // The outcome of reading a physical record, with `before` reports so far.
    ghost predicate Outcome(r: PhysicalRead, before: nat, kind: Byte, fragment: Bytes)
      reads this
    {
      match r
      case Eof => kind == END_OF_FILE && Pos() == |file| && reports == before
      case Bad(next, reported) => kind == BAD_RECORD && Pos() == next && reports == before + Count(reported)
      case Got(k, data, next) => kind == k && fragment == data && Pos() == next && reports == before
    }

    // What is delivered, dropped or reported is what lies at the next header.
    method ReadPhysicalRecord() returns (kind: Byte, fragment: Bytes)
      requires Valid()
      modifies this
      ensures Valid() && Outcome(ReadPhysical(crc, file, old(Pos())), old(reports), kind, fragment)
      ensures exists r :: PhysicalAt(crc, file, old(Pos()), r) && Outcome(r, old(reports), kind, fragment)
    {
      PhysicalMeans(crc, file, Pos());
      fragment := [];
      while |buffer| < HEADER
        invariant Valid() && ReadPhysical(crc, file, Pos()) == ReadPhysical(crc, file, old(Pos()))
        invariant reports == old(reports)
        decreases |file| - filePos + Count(!eof)
      {
        if eof {
          ClearBuffer();
          return END_OF_FILE, [];
        }
        ReadBlock();
      }
      HeaderInFile();
      kind, fragment := ParseBuffer();
    }

    method ClearBuffer()
      requires Valid()
      modifies this`buffer
      ensures Valid() && Pos() == filePos
    {
      buffer := [];
    }

    // What the parser sees is what the file holds.
    lemma HeaderInFile()
      requires Valid() && |buffer| >= HEADER
      ensures forall i :: 0 <= i < HEADER ==> buffer[i] == file[Pos() + i]
      ensures ReadPhysical(crc, file, Pos()) == ParseHeader(crc, file, Pos(), filePos, eof)
    {
    }

    // Check crc.
    method ChecksumOk(length: nat) returns (ok: bool)
      requires Valid() && HEADER + length <= |buffer|
      ensures ok <==> file[Pos()..Pos() + 4] == crc(file[Pos() + 6..Pos() + HEADER + length])
    {
      SliceOfSlice(file, Pos(), filePos, 0, 4);
      SliceOfSlice(file, Pos(), filePos, 6, HEADER + length);
      ChecksumAgrees(crc, buffer[..4], buffer[6..HEADER + length]);
      ok := Crc.Unmask(DecodeFixed32(buffer[..4])) == Crc.Value(buffer[6..HEADER + length]);
    }

    // Drop the rest of the buffer, and report it or not.
    method DropBuffer(report: bool)
      requires Valid()
      modifies this
      ensures Valid() && Pos() == filePos == old(filePos) && reports == old(reports) + Count(report)
    {
      ClearBuffer();
      if report {
        ReportCorruption();
      }
    }

    // The part of ReadPhysicalRecord after the buffer is filled.
    method ParseBuffer() returns (kind: Byte, fragment: Bytes)
      requires Valid() && |buffer| >= HEADER
      modifies this
      ensures Valid()
      ensures Outcome(ParseHeader(crc, file, old(Pos()), old(filePos), old(eof)), old(reports), kind, fragment)
    {
      fragment := [];
      HeaderInFile();
      var length := buffer[4] as int + 256 * buffer[5] as int;
      if HEADER + length > |buffer| {
        if !eof {
          DropBuffer(true);
          return BAD_RECORD, [];
        }
        DropBuffer(false);
        return END_OF_FILE, [];
      }
      kind, fragment := ParsePayload(length);
    }

    lemma PayloadInFile(length: nat)
      requires Valid() && HEADER + length <= |buffer|
      ensures buffer[6] == file[Pos() + 6]
      ensures buffer[HEADER..HEADER + length] == file[Pos() + HEADER..Pos() + HEADER + length]
    {
      SliceOfSlice(file, Pos(), filePos, HEADER, HEADER + length);
    }

    // Type, checksum and payload.
    method ParsePayload(length: nat) returns (kind: Byte, fragment: Bytes)
      requires Valid() && HEADER + length <= |buffer|
      modifies this
      ensures Valid()
      ensures Outcome(ParseBody(crc, file, old(Pos()), old(filePos), length), old(reports), kind, fragment)
    {
      PayloadInFile(length);
      fragment := [];
      kind := buffer[6];
      if kind == 0 && length == 0 {
        DropBuffer(false);
        return BAD_RECORD, [];
      }
      var ok := ChecksumOk(length);
      if !ok {
        DropBuffer(true);
        return BAD_RECORD, [];
      }
      fragment := buffer[HEADER..HEADER + length];
      RemovePrefix(HEADER + length);
    }

    method RemovePrefix(n: nat)
      requires Valid() && n <= |buffer|
      modifies this`buffer
      ensures Valid() && Pos() == old(Pos()) + n
    {
      buffer := buffer[n..];
    }

    // The switch in ReadRecord.
    method HandleFragment(kind: Byte, fragment: Bytes, scratch: Option<Bytes>) returns (step: Step)
      modifies this`reports
      ensures step == Handle(kind, fragment, scratch) && reports == old(reports) + step.reports
    {
      if kind == FULL {
        if scratch.Some? && scratch.value != [] {
          ReportCorruption();
        }
        step := Done(Some(fragment), Count(scratch.Some? && scratch.value != []));
      } else if kind == FIRST {
        if scratch.Some? && scratch.value != [] {
          ReportCorruption();
        }
        step := More(Some(fragment), Count(scratch.Some? && scratch.value != []));
      } else if kind == MIDDLE {
        if scratch.None? {
          ReportCorruption();
          step := More(None, 1);
        } else {
          step := More(Some(scratch.value + fragment), 0);
        }
      } else if kind == LAST {
        if scratch.None? {
          ReportCorruption();
          step := More(None, 1);
        } else {
          step := Done(Some(scratch.value + fragment), 0);
        }
      } else if kind == END_OF_FILE {
        step := Done(None, 0);
      } else if kind == BAD_RECORD {
        if scratch.Some? {
          ReportCorruption();
        }
        step := More(None, Count(scratch.Some?));
      } else {
        ReportCorruption();
        step := More(None, 1);
      }
    }

    // Once around the loop in ReadRecord: what is still to be read stays the same.
    method ReadStep(scratch: Option<Bytes>) returns (step: Step)
      requires Valid()
      modifies this
      ensures Valid() && reports >= old(reports)
      ensures var r := ReadRecordFrom(crc, file, old(Pos()), scratch);
              r == match step {
                     case Done(record, _) => RecordRead(record, Pos(), reports - old(reports))
                     case More(scratch', _) =>
                       WithReports(ReadRecordFrom(crc, file, Pos(), scratch'), reports - old(reports))
                   }
      ensures step.More? ==> Pos() > old(Pos())
    {
      var kind, fragment := ReadPhysicalRecord();
      step := HandleFragment(kind, fragment, scratch);
    }

    method ReadRecord() returns (record: Option<Bytes>)
      requires Valid()
      modifies this
      ensures Valid()
      ensures var r := ReadRecordFrom(crc, file, old(Pos()), None);
              record == r.record && Pos() == r.next && reports == old(reports) + r.reports
      ensures reports >= old(reports) && SoundRead(crc, file, old(Pos()), RecordRead(record, Pos(), reports - old(reports)))
    {
      ReadIsSound(crc, file, Pos());
      var scratch: Option<Bytes> := None;
      ghost var r := ReadRecordFrom(crc, file, Pos(), None);
      while true
        invariant Valid() && reports >= old(reports)
        invariant r == WithReports(ReadRecordFrom(crc, file, Pos(), scratch), reports - old(reports))
        decreases |file| - Pos()
      {
        var step := ReadStep(scratch);
        match step
        case Done(r', _) => return r';
        case More(scratch', _) => scratch := scratch';
      }
    }
  }
}
