/** The log file format (db/log_format.h): what the writer (db/log_writer.cc) appends and
  what the reader (db/log_reader.cc) makes of a file, as functions of byte strings. The
  checksum is a parameter; nothing depends on which one it is. */
module LogFormat {
  import opened Wrappers
  import opened Keys

  const BLOCK := 32768
  const HEADER := 7

  const FULL: Byte := 1
  const FIRST: Byte := 2
  const MIDDLE: Byte := 3
  const LAST: Byte := 4

  // The four checksum bytes stored for a type byte and its payload.
  type Four = s: Bytes | |s| == 4 witness [0, 0, 0, 0]
  type Checksum = Bytes -> Four

  // What EmitPhysicalRecord appends.
  function Physical(crc: Checksum, kind: Byte, data: Bytes): (r: Bytes)
    requires |data| <= 0xffff
    ensures |r| == HEADER + |data|
  {
    crc([kind] + data) + [|data| % 256, |data| / 256, kind] + data
  }

  // The bytes left at the end of a block that are too few for a header.
  function Padding(p: nat): (r: nat)
    ensures r < HEADER
  {
    var leftover := BLOCK - p % BLOCK;
    if leftover < HEADER then leftover else 0
  }

  function Zeros(n: nat): (r: Bytes)
    ensures |r| == n
  {
    seq(n, i => 0)
  }

  // Room for payload in the block of q, after a header at q.
  function Available(q: nat): (r: nat)
    requires q % BLOCK + HEADER <= BLOCK
  {
    BLOCK - q % BLOCK - HEADER
  }

  lemma AfterPadding(p: nat)
    ensures (p + Padding(p)) % BLOCK + HEADER <= BLOCK
    ensures Padding(p) > 0 ==> (p + Padding(p)) % BLOCK == 0 && p / BLOCK * BLOCK + BLOCK == p + Padding(p)
  {
  }

  function Kind(begin: bool, end: bool): Byte {
    if begin && end then FULL else if begin then FIRST else if end then LAST else MIDDLE
  }

  function FragmentLength(p: nat, left: nat): (r: nat)
    ensures r <= left && r <= 0xffff
    ensures r == 0 && left > 0 ==> (p + Padding(p)) % BLOCK == BLOCK - HEADER
  {
    AfterPadding(p);
    if left < Available(p + Padding(p)) then left else Available(p + Padding(p))
  }

  // One round of the loop in AddRecord, for a file of length p.
  function Fragment(crc: Checksum, p: nat, data: Bytes, begin: bool): (r: Bytes)
    ensures |r| == Padding(p) + HEADER + FragmentLength(p, |data|)
  {
    var n := FragmentLength(p, |data|);
    Zeros(Padding(p)) + Physical(crc, Kind(begin, n == |data|), data[..n])
  }

  // What AddRecord appends to a file of length p for the (rest of the) record `data`.
  function Fragments(crc: Checksum, p: nat, data: Bytes, begin: bool): (r: Bytes)
    ensures |r| >= HEADER
    decreases |data|, if p % BLOCK == BLOCK - HEADER then 1 else 0
  {
    var n := FragmentLength(p, |data|);
    var one := Fragment(crc, p, data, begin);
    if n == |data| then one else one + Fragments(crc, p + |one|, data[n..], false)
  }

  // What AddRecord appends, as a function of the file length and the record.
  function AddRecordTo(crc: Checksum): (nat, Bytes) -> Bytes {
    (p, data) => Fragments(crc, p, data, true)
  }

  // What a run of calls appends, when one call appends add(p, record) to a file of length p.
  function LogOf(add: (nat, Bytes) -> Bytes, p: nat, records: seq<Bytes>): Bytes
    decreases |records|
  {
    if records == [] then []
    else add(p, records[0]) + LogOf(add, p + |add(p, records[0])|, records[1..])
  }

  // One more call appends what it adds to the log so far: repeated AddRecord calls write LogOf.
  lemma {:induction false} LogGrows(add: (nat, Bytes) -> Bytes, p: nat, records: seq<Bytes>, record: Bytes)
    ensures LogOf(add, p, records + [record])
         == LogOf(add, p, records) + add(p + |LogOf(add, p, records)|, record)
    decreases |records|
  {
    if records == [] {
      assert [record][1..] == [];
    } else {
      assert (records + [record])[1..] == records[1..] + [record];
      LogGrows(add, p + |add(p, records[0])|, records[1..], record);
    }
  }

  datatype PhysicalRead = Eof | Bad(next: nat, reported: bool) | Got(kind: Byte, data: Bytes, next: nat)

  function BlockEnd(pos: nat): nat {
    pos / BLOCK * BLOCK + BLOCK
  }

  // ReadPhysicalRecord at a position of the file. The last block is the one that is not
  // full; only there can a record be cut short.
  function ReadPhysical(crc: Checksum, f: Bytes, pos: nat): (r: PhysicalRead)
    requires pos <= |f|
    ensures r.Bad? || r.Got? ==> pos < r.next <= |f|
    decreases |f| - pos
  {
    var last := BlockEnd(pos) > |f|;
    var stop := if last then |f| else BlockEnd(pos);
    if stop - pos < HEADER then
      if last then Eof else ReadPhysical(crc, f, stop)
    else
      ParseHeader(crc, f, pos, stop, last)
  }

  function ParseHeader(crc: Checksum, f: Bytes, pos: nat, stop: nat, last: bool): (r: PhysicalRead)
    requires pos + HEADER <= stop <= |f|
    ensures r.Bad? || r.Got? ==> pos < r.next <= |f|
  {
    var length := f[pos + 4] as int + 256 * f[pos + 5] as int;
    if HEADER + length > stop - pos then
      if last then Eof else Bad(stop, true)
    else
      ParseBody(crc, f, pos, stop, length)
  }

  function ParseBody(crc: Checksum, f: Bytes, pos: nat, stop: nat, length: nat): (r: PhysicalRead)
    requires pos + HEADER + length <= stop <= |f|
    ensures r.Bad? || r.Got? ==> pos < r.next <= |f|
  {
    var kind := f[pos + 6];
    if kind == 0 && length == 0 then
      Bad(stop, false)
    else if f[pos..pos + 4] != crc(f[pos + 6..pos + HEADER + length]) then
      Bad(stop, true)
    else
      Got(kind, f[pos + HEADER..pos + HEADER + length], pos + HEADER + length)
  }

  // A record or the end, where reading goes on, and how many drops were reported.
  datatype RecordRead = RecordRead(record: Option<Bytes>, next: nat, reports: nat)

  const END_OF_FILE: Byte := 5
  const BAD_RECORD: Byte := 6

  function Count(b: bool): nat {
    if b then 1 else 0
  }

  function WithReports(r: RecordRead, n: nat): RecordRead {
    r.(reports := r.reports + n)
  }

  // What one physical record does to a logical record that is being put together:
  // `scratch` holds the fragments so far, if a record has been started.
  datatype Step = Done(record: Option<Bytes>, reports: nat) | More(scratch: Option<Bytes>, reports: nat)

  function Handle(kind: Byte, data: Bytes, scratch: Option<Bytes>): Step {
    // An older writer could leave an empty first fragment behind; that is not reported.
    var interrupted := Count(scratch.Some? && scratch.value != []);
    if kind == FULL then Done(Some(data), interrupted)
    else if kind == FIRST then More(Some(data), interrupted)
    else if kind == MIDDLE then
      if scratch.None? then More(None, 1) else More(Some(scratch.value + data), 0)
    else if kind == LAST then
      if scratch.None? then More(None, 1) else Done(Some(scratch.value + data), 0)
    else if kind == END_OF_FILE then Done(None, 0)
    else if kind == BAD_RECORD then More(None, Count(scratch.Some?))
    else More(None, 1)
  }

  // ReadRecord from a position of the file.
  function ReadRecordFrom(crc: Checksum, f: Bytes, pos: nat, scratch: Option<Bytes>): (r: RecordRead)
    requires pos <= |f|
    ensures r.next <= |f| && (r.record.Some? ==> pos < r.next)
    decreases |f| - pos
  {
    match ReadPhysical(crc, f, pos)
    case Eof => RecordRead(None, |f|, 0)
    case Bad(next, reported) =>
      WithReports(ReadRecordFrom(crc, f, next, None), Count(reported) + Count(scratch.Some?))
    case Got(kind, data, next) =>
      match Handle(kind, data, scratch)
      case Done(record, reports) => RecordRead(record, next, reports)
      case More(scratch', reports) => WithReports(ReadRecordFrom(crc, f, next, scratch'), reports)
  }

  datatype FileRead = FileRead(records: seq<Bytes>, reports: nat)

  // Reading on until there is no further record.
  function ReadAll(crc: Checksum, f: Bytes, pos: nat): FileRead
    requires pos <= |f|
    decreases |f| - pos
  {
    var one := ReadRecordFrom(crc, f, pos, None);
    if one.record.None? then FileRead([], one.reports)
    else
      var rest := ReadAll(crc, f, one.next);
      FileRead([one.record.value] + rest.records, one.reports + rest.reports)
  }

  predicate At(g: Bytes, p: nat, part: Bytes) {
    p + |part| <= |g| && g[p..p + |part|] == part
  }

  lemma AtSplit(g: Bytes, p: nat, a: Bytes, b: Bytes)
    requires At(g, p, a + b)
    ensures At(g, p, a) && At(g, p + |a|, b)
  {
    assert g[p..p + |a + b|][..|a|] == a;
    assert g[p..p + |a + b|][|a|..] == b;
  }

  lemma AtIndex(g: Bytes, p: nat, part: Bytes, i: nat)
    requires At(g, p, part) && i < |part|
    ensures g[p + i] == part[i]
  {
    assert g[p..p + |part|][i] == part[i];
  }

  // The header of a physical record, field by field.
  lemma HeaderFields(crc: Checksum, g: Bytes, q: nat, kind: Byte, data: Bytes)
    requires |data| <= 0xffff && At(g, q, Physical(crc, kind, data))
    ensures g[q..q + 4] == crc([kind] + data)
    ensures g[q + 4] as int + 256 * g[q + 5] as int == |data| && g[q + 6] == kind
    ensures g[q + 6..q + HEADER + |data|] == [kind] + data
    ensures g[q + HEADER..q + HEADER + |data|] == data
  {
    var stored, lengths := crc([kind] + data), [|data| % 256, |data| / 256];
    assert Physical(crc, kind, data) == stored + (lengths + ([kind] + data));
    AtSplit(g, q, stored, lengths + ([kind] + data));
    AtSplit(g, q + 4, lengths, [kind] + data);
    AtIndex(g, q + 4, lengths, 0);
    AtIndex(g, q + 4, lengths, 1);
    AtIndex(g, q + 6, [kind] + data, 0);
    AtSplit(g, q + 6, [kind], data);
  }

  // The file f is g cut off somewhere.
  lemma CutSlice(g: Bytes, f: Bytes, a: nat, b: nat)
    requires a <= b <= |f| && f <= g
    ensures f[a..b] == g[a..b]
  {
  }

  lemma ParseWhole(crc: Checksum, g: Bytes, f: Bytes, q: nat, kind: Byte, data: Bytes, stop: nat, last: bool)
    requires |data| <= 0xffff && kind != 0 && At(g, q, Physical(crc, kind, data))
    requires q + HEADER + |data| <= stop <= |f| && f <= g
    ensures ParseHeader(crc, f, q, stop, last) == Got(kind, data, q + HEADER + |data|)
  {
    HeaderFields(crc, g, q, kind, data);
    CutSlice(g, f, q, q + 4);
    CutSlice(g, f, q + 6, q + HEADER + |data|);
    CutSlice(g, f, q + HEADER, q + HEADER + |data|);
  }

  lemma ParseCut(crc: Checksum, g: Bytes, f: Bytes, q: nat, kind: Byte, data: Bytes)
    requires |data| <= 0xffff && At(g, q, Physical(crc, kind, data))
    requires q + HEADER <= |f| < q + HEADER + |data| && f <= g
    ensures ParseHeader(crc, f, q, |f|, true) == Eof
  {
    HeaderFields(crc, g, q, kind, data);
  }

  // A physical record at a place where it fits its block.
  predicate Fits(q: nat, n: nat) {
    q % BLOCK + HEADER + n <= BLOCK
  }

  lemma FitsBlock(q: nat, n: nat)
    requires Fits(q, n)
    ensures q + HEADER + n <= BlockEnd(q)
  {
  }

  lemma ReadHere(crc: Checksum, g: Bytes, f: Bytes, q: nat, kind: Byte, data: Bytes)
    requires Fits(q, |data|) && |data| <= 0xffff && kind != 0 && At(g, q, Physical(crc, kind, data))
    requires q <= |f| && f <= g
    ensures ReadPhysical(crc, f, q)
         == if q + HEADER + |data| <= |f| then Got(kind, data, q + HEADER + |data|) else Eof
  {
    FitsBlock(q, |data|);
    if q + HEADER + |data| <= |f| {
      var last := BlockEnd(q) > |f|;
      ParseWhole(crc, g, f, q, kind, data, if last then |f| else BlockEnd(q), last);
    } else if q + HEADER <= |f| {
      ParseCut(crc, g, f, q, kind, data);
    }
  }

  lemma SkipsPadding(crc: Checksum, f: Bytes, p: nat, q: nat)
    requires p <= |f| && q == p + Padding(p) && Padding(p) > 0
    ensures ReadPhysical(crc, f, p) == if q <= |f| then ReadPhysical(crc, f, q) else Eof
  {
    AfterPadding(p);
    assert BlockEnd(p) == q;
  }

  // Past the padding first.
  lemma ReadAfterPadding(crc: Checksum, g: Bytes, f: Bytes, p: nat, kind: Byte, data: Bytes)
    requires var q := p + Padding(p);
             Fits(q, |data|) && |data| <= 0xffff && kind != 0 && At(g, q, Physical(crc, kind, data))
    requires p <= |f| && f <= g
    ensures ReadPhysical(crc, f, p)
         == if p + Padding(p) + HEADER + |data| <= |f| then Got(kind, data, p + Padding(p) + HEADER + |data|) else Eof
  {
    var q := p + Padding(p);
    AfterPadding(p);
    if Padding(p) == 0 {
      ReadHere(crc, g, f, q, kind, data);
    } else {
      SkipsPadding(crc, f, p, q);
      if q <= |f| {
        ReadHere(crc, g, f, q, kind, data);
      }
    }
  }

  lemma FragmentFits(p: nat, left: nat)
    ensures Fits(p + Padding(p), FragmentLength(p, left))
  {
    AfterPadding(p);
  }

  lemma ReadFragment(crc: Checksum, g: Bytes, f: Bytes, p: nat, data: Bytes, begin: bool)
    requires At(g, p, Fragment(crc, p, data, begin)) && p <= |f| && f <= g
    ensures var n := FragmentLength(p, |data|);
            var next := p + |Fragment(crc, p, data, begin)|;
            ReadPhysical(crc, f, p) == if next <= |f| then Got(Kind(begin, n == |data|), data[..n], next) else Eof
  {
    var n := FragmentLength(p, |data|);
    var physical := Physical(crc, Kind(begin, n == |data|), data[..n]);
    AtSplit(g, p, Zeros(Padding(p)), physical);
    FragmentFits(p, |data|);
    ReadAfterPadding(crc, g, f, p, Kind(begin, n == |data|), data[..n]);
  }

  function OrEmpty(scratch: Option<Bytes>): Bytes {
    if scratch.Some? then scratch.value else []
  }

  // ReadRecordFrom on one file, through its recursion.
  type Reading = (nat, Option<Bytes>) -> RecordRead

  ghost predicate ReadingAt(crc: Checksum, f: Bytes, read: Reading, p: nat, scratch: Option<Bytes>) {
    p <= |f| ==>
      read(p, scratch) ==
      match ReadPhysical(crc, f, p)
      case Eof => RecordRead(None, |f|, 0)
      case Bad(next, reported) => WithReports(read(next, None), Count(reported) + Count(scratch.Some?))
      case Got(kind, data, next) =>
        match Handle(kind, data, scratch)
        case Done(record, reports) => RecordRead(record, next, reports)
        case More(scratch', reports) => WithReports(read(next, scratch'), reports)
  }

  ghost predicate IsReading(crc: Checksum, f: Bytes, read: Reading) {
    forall p: nat, scratch: Option<Bytes> :: ReadingAt(crc, f, read, p, scratch)
  }

  function ReadingOf(crc: Checksum, f: Bytes): Reading {
    (p: nat, scratch) => if p <= |f| then ReadRecordFrom(crc, f, p, scratch) else RecordRead(None, 0, 0)
  }

  lemma ReadingRecurs(crc: Checksum, f: Bytes)
    ensures IsReading(crc, f, ReadingOf(crc, f))
  {
  }

  // A record of `length` bytes at p reads back whole, or not at all and without a report.
  ghost predicate ReadsBack(read: Reading, end: nat, p: nat, length: nat, data: Bytes, scratch: Option<Bytes>) {
    read(p, scratch)
    == if p + length <= end then RecordRead(Some(OrEmpty(scratch) + data), p + length, 0) else RecordRead(None, end, 0)
  }

  lemma LastFragment(crc: Checksum, read: Reading, g: Bytes, f: Bytes, p: nat, data: Bytes, scratch: Option<Bytes>)
    requires At(g, p, Fragment(crc, p, data, scratch.None?)) && p <= |f| && f <= g
    requires FragmentLength(p, |data|) == |data| && ReadingAt(crc, f, read, p, scratch)
    ensures ReadsBack(read, |f|, p, |Fragment(crc, p, data, scratch.None?)|, data, scratch)
  {
    ReadFragment(crc, g, f, p, data, scratch.None?);
    assert data[..|data|] == data;
    assert [] + data == data;
  }

  // An earlier fragment goes to the scratch buffer, if it is there.
  ghost predicate Continues(read: Reading, end: nat, p: nat, next: nat, scratch: Option<Bytes>, soFar: Bytes) {
    && (next <= end ==> read(p, scratch) == read(next, Some(soFar)))
    && (next > end ==> read(p, scratch) == RecordRead(None, end, 0))
  }

  lemma TakeFragment(crc: Checksum, read: Reading, f: Bytes, p: nat, scratch: Option<Bytes>, piece: Bytes, next: nat)
    requires p <= |f| && ReadingAt(crc, f, read, p, scratch)
    requires ReadPhysical(crc, f, p) == if next <= |f| then Got(Kind(scratch.None?, false), piece, next) else Eof
    ensures Continues(read, |f|, p, next, scratch, OrEmpty(scratch) + piece)
  {
    assert [] + piece == piece;
  }

  lemma ContinuesToEnd(read: Reading, end: nat, p: nat, next: nat, length: nat, scratch: Option<Bytes>, soFar: Bytes,
      rest: Bytes, data: Bytes)
    requires Continues(read, end, p, next, scratch, soFar)
    requires next <= end ==> ReadsBack(read, end, next, length, rest, Some(soFar))
    requires soFar + rest == OrEmpty(scratch) + data && next >= p
    ensures ReadsBack(read, end, p, next + length - p, data, scratch)
  {
  }

  lemma FragmentProgress(p: nat, left: nat)
    requires FragmentLength(p, left) == 0 && left > 0
    ensures p % BLOCK == BLOCK - HEADER && (p + Padding(p) + HEADER) % BLOCK == 0
  {
  }

  lemma FragmentsSplit(crc: Checksum, p: nat, data: Bytes, begin: bool)
    returns (n: nat, one: Bytes, rest: Bytes)
    ensures n == FragmentLength(p, |data|) && one == Fragment(crc, p, data, begin)
    ensures n == |data| ==> Fragments(crc, p, data, begin) == one
    ensures n < |data| ==> rest == Fragments(crc, p + |one|, data[n..], false)
    ensures n < |data| ==> Fragments(crc, p, data, begin) == one + rest
    ensures |one| == Padding(p) + HEADER + n
  {
    n := FragmentLength(p, |data|);
    one := Fragment(crc, p, data, begin);
    rest := if n < |data| then Fragments(crc, p + |one|, data[n..], false) else [];
  }

  lemma ReadEarlier(crc: Checksum, g: Bytes, f: Bytes, p: nat, data: Bytes, begin: bool, n: nat, one: Bytes)
    requires n == FragmentLength(p, |data|) < |data| && one == Fragment(crc, p, data, begin)
    requires At(g, p, one) && p <= |f| && f <= g
    ensures ReadPhysical(crc, f, p)
         == if p + |one| <= |f| then Got(Kind(begin, false), data[..n], p + |one|) else Eof
  {
    ReadFragment(crc, g, f, p, data, begin);
  }

  lemma FirstContinues(crc: Checksum, read: Reading, g: Bytes, f: Bytes, p: nat, data: Bytes, scratch: Option<Bytes>, n: nat, one: Bytes)
    requires n == FragmentLength(p, |data|) < |data| && one == Fragment(crc, p, data, scratch.None?)
    requires p <= |f| && f <= g && At(g, p, one) && ReadingAt(crc, f, read, p, scratch)
    ensures Continues(read, |f|, p, p + |one|, scratch, OrEmpty(scratch) + data[..n])
  {
    ReadEarlier(crc, g, f, p, data, scratch.None?, n, one);
    TakeFragment(crc, read, f, p, scratch, data[..n], p + |one|);
  }

  // The first fragment is there in full or not; the rest reads back after it.
  lemma ReadFirstFragment(crc: Checksum, read: Reading, g: Bytes, f: Bytes, p: nat, data: Bytes, scratch: Option<Bytes>,
      n: nat, one: Bytes, rest: Bytes)
    requires n == FragmentLength(p, |data|) < |data| && one == Fragment(crc, p, data, scratch.None?)
    requires p <= |f| && f <= g && At(g, p, one + rest) && IsReading(crc, f, read)
    requires p + |one| <= |f| ==> ReadsBack(read, |f|, p + |one|, |rest|, data[n..], Some(OrEmpty(scratch) + data[..n]))
    ensures ReadsBack(read, |f|, p, |one + rest|, data, scratch)
  {
    AtSplit(g, p, one, rest);
    assert ReadingAt(crc, f, read, p, scratch);
    FirstContinues(crc, read, g, f, p, data, scratch, n, one);
    TakeAndDrop(OrEmpty(scratch), data, n);
    ContinuesToEnd(read, |f|, p, p + |one|, |rest|, scratch, OrEmpty(scratch) + data[..n], data[n..], data);
  }

  lemma TakeAndDrop(a: Bytes, data: Bytes, n: nat)
    requires n <= |data|
    ensures a + data[..n] + data[n..] == a + data
  {
    assert data[..n] + data[n..] == data;
  }

  lemma {:induction false} ReadRecordBack(crc: Checksum, read: Reading, g: Bytes, f: Bytes, p: nat, data: Bytes, begin: bool,
      scratch: Option<Bytes>, whole: Bytes)
    requires begin == scratch.None? && whole == Fragments(crc, p, data, begin) && At(g, p, whole) && p <= |f| && f <= g
    requires IsReading(crc, f, read)
    ensures ReadsBack(read, |f|, p, |whole|, data, scratch)
    decreases |data|, if p % BLOCK == BLOCK - HEADER then 1 else 0
  {
    var n, one, rest := FragmentsSplit(crc, p, data, begin);
    if n == |data| {
      assert ReadingAt(crc, f, read, p, scratch);
      LastFragment(crc, read, g, f, p, data, scratch);
    } else {
      if p + |one| <= |f| {
        AtSplit(g, p, one, rest);
        if n == 0 {
          FragmentProgress(p, |data|);
        }
        ReadRecordBack(crc, read, g, f, p + |one|, data[n..], false, Some(OrEmpty(scratch) + data[..n]), rest);
      }
      ReadFirstFragment(crc, read, g, f, p, data, scratch, n, one, rest);
    }
  }

  // How many records end at or before t.
  function Whole(add: (nat, Bytes) -> Bytes, p: nat, records: seq<Bytes>, t: nat): (k: nat)
    ensures k <= |records|
    decreases |records|
  {
    if records == [] then 0
    else
      var next := p + |add(p, records[0])|;
      if next <= t then 1 + Whole(add, next, records[1..], t) else 0
  }

  // Records written by `add` read back, one at a time.
  ghost predicate ReadsBackAt(crc: Checksum, g: Bytes, f: Bytes, add: (nat, Bytes) -> Bytes, p: nat, data: Bytes) {
    At(g, p, add(p, data)) && p <= |f| && f <= g ==>
      var next := p + |add(p, data)|;
      ReadRecordFrom(crc, f, p, None) == if next <= |f| then RecordRead(Some(data), next, 0) else RecordRead(None, |f|, 0)
  }

  lemma FirstAndRest(records: seq<Bytes>, k: nat)
    requires records != [] && k < |records|
    ensures [records[0]] + records[1..][..k] == records[..k + 1]
  {
  }

  lemma {:induction false} ReadAllBack(crc: Checksum, g: Bytes, f: Bytes, add: (nat, Bytes) -> Bytes, p: nat,
      records: seq<Bytes>)
    requires forall q: nat, data: Bytes :: ReadsBackAt(crc, g, f, add, q, data)
    requires At(g, p, LogOf(add, p, records)) && p + |LogOf(add, p, records)| == |g| && p <= |f| && f <= g
    ensures ReadAll(crc, f, p) == FileRead(records[..Whole(add, p, records, |f|)], 0)
    decreases |records|
  {
    if records == [] {
      ReadNothing(crc, g, p);
    } else {
      var one := add(p, records[0]);
      var next := p + |one|;
      AtSplit(g, p, one, LogOf(add, next, records[1..]));
      assert ReadsBackAt(crc, g, f, add, p, records[0]);
      if next <= |f| {
        ReadAllBack(crc, g, f, add, next, records[1..]);
        FirstAndRest(records, Whole(add, next, records[1..], |f|));
      }
    }
  }

  lemma ReadNothing(crc: Checksum, f: Bytes, p: nat)
    requires p == |f|
    ensures ReadAll(crc, f, p) == FileRead([], 0)
  {
  }

  lemma AddRecordReadsBack(crc: Checksum, g: Bytes, f: Bytes, p: nat, data: Bytes)
    ensures ReadsBackAt(crc, g, f, AddRecordTo(crc), p, data)
  {
    if At(g, p, AddRecordTo(crc)(p, data)) && p <= |f| && f <= g {
      ReadingRecurs(crc, f);
      ReadRecordBack(crc, ReadingOf(crc, f), g, f, p, data, true, None, AddRecordTo(crc)(p, data));
      assert [] + data == data;
    }
  }

  // A log that was cut off anywhere reads back as the records that are wholly there, in
  // order, and no corruption is reported.
  lemma CrashRecovery(crc: Checksum, records: seq<Bytes>, f: Bytes)
    requires f <= LogOf(AddRecordTo(crc), 0, records)
    ensures ReadAll(crc, f, 0) == FileRead(records[..Whole(AddRecordTo(crc), 0, records, |f|)], 0)
  {
    var add := AddRecordTo(crc);
    var g := LogOf(add, 0, records);
    forall q: nat, data: Bytes ensures ReadsBackAt(crc, g, f, add, q, data) {
      AddRecordReadsBack(crc, g, f, q, data);
    }
    assert At(g, 0, g);
    ReadAllBack(crc, g, f, add, 0, records);
  }

  // `Whole` counts exactly the longest prefix whose log fits in t bytes.
  lemma {:induction false} WholeIsLongest(add: (nat, Bytes) -> Bytes, p: nat, records: seq<Bytes>, t: nat)
    requires p <= t
    ensures p + |LogOf(add, p, records[..Whole(add, p, records, t)])| <= t
    ensures Whole(add, p, records, t) < |records| ==> p + |LogOf(add, p, records[..Whole(add, p, records, t) + 1])| > t
    decreases |records|
  {
    if records != [] {
      var next := p + |add(p, records[0])|;
      var k := Whole(add, p, records, t);
      if next <= t {
        WholeIsLongest(add, next, records[1..], t);
        assert records[..k][1..] == records[1..][..k - 1];
        if k < |records| {
          assert records[..k + 1][1..] == records[1..][..k];
        }
      }
    }
  }

  lemma {:induction false} WholeOfAll(add: (nat, Bytes) -> Bytes, p: nat, records: seq<Bytes>)
    ensures Whole(add, p, records, p + |LogOf(add, p, records)|) == |records|
    decreases |records|
  {
    if records != [] {
      WholeOfAll(add, p + |add(p, records[0])|, records[1..]);
    }
  }

  lemma NothingIsCut(add: (nat, Bytes) -> Bytes, records: seq<Bytes>, r: FileRead)
    requires r == FileRead(records[..Whole(add, 0, records, |LogOf(add, 0, records)|)], 0)
    ensures r == FileRead(records, 0)
  {
    WholeOfAll(add, 0, records);
    assert records[..|records|] == records;
  }

  // The full round trip.
  lemma LogRoundTrip(crc: Checksum, records: seq<Bytes>)
    ensures ReadAll(crc, LogOf(AddRecordTo(crc), 0, records), 0) == FileRead(records, 0)
  {
    CrashRecovery(crc, records, LogOf(AddRecordTo(crc), 0, records));
    NothingIsCut(AddRecordTo(crc), records, ReadAll(crc, LogOf(AddRecordTo(crc), 0, records), 0));
  }
}
