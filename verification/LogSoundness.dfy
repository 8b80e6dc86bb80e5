/** What the log reader may make of any file, damaged or not, said of the bytes alone
  (doc/log_format.md, db/log_reader.cc): what it delivers lies in the file under a matching
  checksum, and what it drops without a report is nothing. */
module LogSoundness {
  import opened Wrappers
  import opened Keys
  import opened LogFormat

  // A header begins at p, or in the next block when fewer than seven bytes are left in this one.
  function HeaderPlace(p: nat): (q: nat)
    ensures q % BLOCK + 7 <= BLOCK && p <= q < p + 7
  {
    AfterPadding(p);
    if p % BLOCK + 7 <= BLOCK then p else p / BLOCK * BLOCK + BLOCK
  }

  function Length(f: Bytes, q: nat): nat
    requires q + 7 <= |f|
  {
    f[q + 4] as int + 256 * f[q + 5] as int
  }

  // The end of the block of q, as far as the file goes.
  function Stop(f: Bytes, q: nat): nat {
    if q / BLOCK * BLOCK + BLOCK <= |f| then q / BLOCK * BLOCK + BLOCK else |f|
  }

  predicate InBlock(f: Bytes, q: nat)
    requires q + 7 <= |f|
  {
    q + 7 + Length(f, q) <= Stop(f, q)
  }

  // A preallocated stretch of the file: type and length are zero.
  predicate Blank(f: Bytes, q: nat)
    requires q + 7 <= |f|
  {
    InBlock(f, q) && f[q + 6] == 0 && Length(f, q) == 0
  }

  // The four stored bytes are the checksum of type and payload.
  predicate Matches(crc: Checksum, f: Bytes, q: nat)
    requires q + 7 <= |f|
  {
    InBlock(f, q) && f[q..q + 4] == crc(f[q + 6..q + 7 + Length(f, q)])
  }

  // A fragment of this type and payload is at q.
  ghost predicate FragmentAt(crc: Checksum, f: Bytes, q: nat, kind: Byte, data: Bytes) {
    && q + 7 <= |f| && q % BLOCK + 7 + |data| <= BLOCK && Length(f, q) == |data|
    && Matches(crc, f, q) && !Blank(f, q)
    && f[q + 6] == kind && f[q + 7..q + 7 + |data|] == data
  }

  // Damage at q: a payload that leaves its block, or a checksum that does not match.
  predicate Damaged(crc: Checksum, f: Bytes, q: nat) {
    && q + 7 <= |f| && !Blank(f, q)
    && if InBlock(f, q) then !Matches(crc, f, q) else q / BLOCK * BLOCK + BLOCK <= |f|
  }

  // The file ends before the header or the payload does; only its last block can be like that.
  predicate CutShort(f: Bytes, q: nat) {
    q + 7 > |f| || (q / BLOCK * BLOCK + BLOCK > |f| && q + 7 + Length(f, q) > |f|)
  }

  // The outcome of reading a physical record at p.
  ghost predicate PhysicalAt(crc: Checksum, f: Bytes, p: nat, r: PhysicalRead) {
    var q := HeaderPlace(p);
    match r
    case Got(kind, data, next) => FragmentAt(crc, f, q, kind, data) && next == q + 7 + |data|
    case Bad(next, reported) =>
      && q + 7 <= |f| && next == Stop(f, q)
      && if reported then Damaged(crc, f, q) else Blank(f, q)
    case Eof => CutShort(f, q)
  }

  lemma HeaderRead(crc: Checksum, f: Bytes, p: nat)
    requires p <= |f|
    ensures var q := HeaderPlace(p);
            ReadPhysical(crc, f, p) == if q <= |f| then ReadPhysical(crc, f, q) else Eof
  {
    AfterPadding(p);
    if Padding(p) > 0 {
      SkipsPadding(crc, f, p, p + Padding(p));
    }
  }

  lemma PhysicalAtHeader(crc: Checksum, f: Bytes, q: nat)
    requires q <= |f| && q % BLOCK + 7 <= BLOCK
    ensures PhysicalAt(crc, f, q, ReadPhysical(crc, f, q))
  {
  }

  // Exactly one thing can be read at each place.
  lemma PhysicalMeans(crc: Checksum, f: Bytes, p: nat)
    requires p <= |f|
    ensures PhysicalAt(crc, f, p, ReadPhysical(crc, f, p))
  {
    HeaderRead(crc, f, p);
    if HeaderPlace(p) <= |f| {
      PhysicalAtHeader(crc, f, HeaderPlace(p));
    }
  }

  lemma PhysicalUnique(crc: Checksum, f: Bytes, p: nat, r: PhysicalRead, s: PhysicalRead)
    requires PhysicalAt(crc, f, p, r) && PhysicalAt(crc, f, p, s)
    ensures r == s
  {
  }

  // A damaged header is reported and the rest of its block is skipped.
  lemma DamageIsReported(crc: Checksum, f: Bytes, q: nat)
    requires q % BLOCK + 7 <= BLOCK && Damaged(crc, f, q)
    ensures ReadPhysical(crc, f, q) == Bad(Stop(f, q), true)
  {
    PhysicalMeans(crc, f, q);
    PhysicalUnique(crc, f, q, ReadPhysical(crc, f, q), Bad(Stop(f, q), true));
  }

  // ---------- records ----------

  datatype Piece = Piece(at: nat, kind: Byte, data: Bytes)

  function After(x: Piece): nat {
    x.at + 7 + |x.data|
  }

  function Joined(ps: seq<Piece>): Bytes {
    if ps == [] then [] else Joined(ps[..|ps| - 1]) + ps[|ps| - 1].data
  }

  // Fragments of the file, each in the first place behind the one before it.
  ghost predicate Linked(crc: Checksum, f: Bytes, ps: seq<Piece>) {
    && (forall k :: 0 <= k < |ps| ==> FragmentAt(crc, f, ps[k].at, ps[k].kind, ps[k].data))
    && (forall k, m {:trigger ps[k], ps[m]} :: 0 <= k && m == k + 1 < |ps| ==> ps[m].at == HeaderPlace(After(ps[k])))
  }

  // A record that was begun: a first fragment and middle ones.
  predicate Begun(ps: seq<Piece>) {
    ps != [] && ps[0].kind == FIRST && forall k :: 0 < k < |ps| ==> ps[k].kind == MIDDLE
  }

  // One full fragment; or a first one, middle ones, and a last one.
  predicate Complete(ps: seq<Piece>) {
    || (|ps| == 1 && ps[0].kind == FULL)
    || (|ps| > 1 && Begun(ps[..|ps| - 1]) && ps[|ps| - 1].kind == LAST)
  }

  ghost predicate RecordAt(crc: Checksum, f: Bytes, ps: seq<Piece>, data: Bytes, from: nat, next: nat) {
    && Linked(crc, f, ps) && Complete(ps) && Joined(ps) == data
    && from <= ps[0].at && next == After(ps[|ps| - 1])
  }

  // The fragments in the scratch buffer, all that was read since the record began.
  ghost predicate Collected(crc: Checksum, f: Bytes, ps: seq<Piece>, scratch: Option<Bytes>, from: nat, pos: nat) {
    && scratch.Some? && Linked(crc, f, ps) && Begun(ps) && Joined(ps) == scratch.value
    && from <= ps[0].at && pos == After(ps[|ps| - 1])
  }

  lemma LinkMore(crc: Checksum, f: Bytes, ps: seq<Piece>, x: Piece)
    requires Linked(crc, f, ps) && FragmentAt(crc, f, x.at, x.kind, x.data)
    requires ps != [] ==> x.at == HeaderPlace(After(ps[|ps| - 1]))
    ensures Linked(crc, f, ps + [x]) && Joined(ps + [x]) == Joined(ps) + x.data
  {
    JoinMore(ps, x);
  }

  lemma JoinMore(ps: seq<Piece>, x: Piece)
    ensures Joined(ps + [x]) == Joined(ps) + x.data
  {
    assert (ps + [x])[..|ps|] == ps;
  }

  lemma JoinedOne(x: Piece)
    ensures Joined([x]) == x.data
  {
    assert [x][..0] == [];
    assert [] + x.data == x.data;
  }

  // One more fragment, in a record that was begun or none: what comes of it.
  lemma FragmentStep(crc: Checksum, f: Bytes, ps: seq<Piece>, scratch: Option<Bytes>, from: nat, pos: nat, x: Piece)
    returns (more: seq<Piece>)
    requires scratch.Some? ==> Collected(crc, f, ps, scratch, from, pos)
    requires from <= pos && x.at == HeaderPlace(pos) && FragmentAt(crc, f, x.at, x.kind, x.data)
    ensures match Handle(x.kind, x.data, scratch)
            case Done(record, _) => record.Some? ==> RecordAt(crc, f, more, record.value, from, After(x))
            case More(scratch', _) => scratch'.Some? ==> Collected(crc, f, more, scratch', from, After(x))
  {
    if x.kind == FULL || x.kind == FIRST {
      more := [x];
      JoinedOne(x);
    } else if scratch.Some? && (x.kind == MIDDLE || x.kind == LAST) {
      more := ps + [x];
      LinkMore(crc, f, ps, x);
      assert more[..|ps|] == ps;
    } else {
      more := [];
    }
  }

  lemma {:induction false} RecordFromIsThere(crc: Checksum, f: Bytes, pos: nat, scratch: Option<Bytes>, ps: seq<Piece>, from: nat)
    returns (all: seq<Piece>)
    requires from <= pos <= |f| && (scratch.Some? ==> Collected(crc, f, ps, scratch, from, pos))
    ensures var r := ReadRecordFrom(crc, f, pos, scratch);
            r.record.Some? ==> RecordAt(crc, f, all, r.record.value, from, r.next)
    decreases |f| - pos
  {
    PhysicalMeans(crc, f, pos);
    match ReadPhysical(crc, f, pos)
    case Eof => all := [];
    case Bad(next, _) => all := RecordFromIsThere(crc, f, next, None, [], from);
    case Got(kind, data, next) =>
      all := FragmentStep(crc, f, ps, scratch, from, pos, Piece(HeaderPlace(pos), kind, data));
      match Handle(kind, data, scratch)
      case Done(_, _) =>
      case More(scratch', _) => all := RecordFromIsThere(crc, f, next, scratch', all, from);
  }

  // A record that is returned is in the file: one full fragment or a first one, middle ones and
  // a last one, whose checksums match and that follow each other with nothing dropped between.
  lemma RecordIsThere(crc: Checksum, f: Bytes, pos: nat)
    requires pos <= |f|
    ensures var r := ReadRecordFrom(crc, f, pos, None);
            r.record.Some? ==> exists ps :: RecordAt(crc, f, ps, r.record.value, pos, r.next)
  {
    var ps := RecordFromIsThere(crc, f, pos, None, [], pos);
  }

  // ---------- nothing is lost silently ----------

  // The physical reads from pos to end, one after the other.
  ghost predicate Scan(crc: Checksum, f: Bytes, pos: nat, rs: seq<PhysicalRead>, end: nat)
    decreases |rs|
  {
    if rs == [] then end == pos
    else !rs[0].Eof? && PhysicalAt(crc, f, pos, rs[0]) && Scan(crc, f, rs[0].next, rs[1..], end)
  }

  // The payload of all fragments read. Type 6 is what the reader itself uses for a bad record.
  function Payload(rs: seq<PhysicalRead>): Bytes {
    if rs == [] then []
    else (if rs[0].Got? && rs[0].kind != 6 then rs[0].data else []) + Payload(rs[1..])
  }

  // Reading stops where the file is cut short, or at a fragment of type 5, which the reader
  // itself uses for the end of the file.
  ghost predicate StopsAt(crc: Checksum, f: Bytes, end: nat) {
    CutShort(f, HeaderPlace(end)) || exists data :: FragmentAt(crc, f, HeaderPlace(end), 5, data)
  }

  lemma ScanMore(crc: Checksum, f: Bytes, pos: nat, one: PhysicalRead, rs: seq<PhysicalRead>, end: nat)
    requires !one.Eof? && PhysicalAt(crc, f, pos, one) && Scan(crc, f, one.next, rs, end)
    ensures Scan(crc, f, pos, [one] + rs, end)
    ensures Payload([one] + rs) == (if one.Got? && one.kind != 6 then one.data else []) + Payload(rs)
  {
    assert ([one] + rs)[1..] == rs;
  }

  // What a fragment leaves of the bytes collected and the bytes still to come.
  lemma KeptOrReported(kind: Byte, data: Bytes, scratch: Option<Bytes>, more: Bytes)
    ensures var all := OrEmpty(scratch) + ((if kind != 6 then data else []) + more);
            match Handle(kind, data, scratch)
            case Done(record, reports) => record.Some? && reports == 0 && more == [] ==> record.value == all
            case More(scratch', reports) => reports == 0 ==> OrEmpty(scratch') + more == all
  {
    var all := OrEmpty(scratch) + ((if kind != 6 then data else []) + more);
    assert all == OrEmpty(scratch) + (if kind != 6 then data else []) + more;
    assert OrEmpty(scratch) + [] == OrEmpty(scratch) && [] + data == data;
  }

  // What a read that went on from here to the end makes of the bytes.
  ghost predicate Accounted(crc: Checksum, f: Bytes, pos: nat, scratch: Option<Bytes>, r: RecordRead, rs: seq<PhysicalRead>, end: nat) {
    && Scan(crc, f, pos, rs, end)
    && (r.record.None? ==> StopsAt(crc, f, end))
    && (r.record.Some? ==> end == r.next && (r.reports == 0 ==> r.record.value == OrEmpty(scratch) + Payload(rs)))
  }

  lemma {:induction false} ReadAccounts(crc: Checksum, f: Bytes, pos: nat, scratch: Option<Bytes>)
    returns (rs: seq<PhysicalRead>, end: nat)
    requires pos <= |f|
    ensures Accounted(crc, f, pos, scratch, ReadRecordFrom(crc, f, pos, scratch), rs, end)
    decreases |f| - pos
  {
    PhysicalMeans(crc, f, pos);
    var one := ReadPhysical(crc, f, pos);
    rs, end := [], pos;
    match one
    case Eof =>
    case Bad(next, _) =>
      rs, end := ReadAccounts(crc, f, next, None);
      ScanMore(crc, f, pos, one, rs, end);
      rs := [one] + rs;
    case Got(kind, data, next) =>
      match Handle(kind, data, scratch)
      case Done(record, _) =>
        if record.Some? {
          KeptOrReported(kind, data, scratch, []);
          ScanMore(crc, f, pos, one, [], next);
          rs, end := [one], next;
          assert [one] + [] == [one];
        }
      case More(scratch', _) =>
        rs, end := ReadAccounts(crc, f, next, scratch');
        KeptOrReported(kind, data, scratch, Payload(rs));
        ScanMore(crc, f, pos, one, rs, end);
        rs := [one] + rs;
  }

  // Without a report, all that was read up to the end of a record is in the record; and there
  // is no record only where the file is cut short.
  lemma NothingLost(crc: Checksum, f: Bytes, pos: nat)
    requires pos <= |f|
    ensures var r := ReadRecordFrom(crc, f, pos, None);
            && (r.record.Some? && r.reports == 0 ==> exists rs :: Scan(crc, f, pos, rs, r.next) && Payload(rs) == r.record.value)
            && (r.record.None? ==> exists rs, end :: Scan(crc, f, pos, rs, end) && StopsAt(crc, f, end))
  {
    var rs, end := ReadAccounts(crc, f, pos, None);
    assert [] + Payload(rs) == Payload(rs);
  }

  // An older writer could leave an empty first fragment at the end of a block: that alone is
  // dropped without a report.
  lemma EmptyFirstIsIgnored(crc: Checksum, f: Bytes, p: nat, q: nat, data: Bytes)
    requires FragmentAt(crc, f, p, FIRST, []) && q == HeaderPlace(p + 7) && FragmentAt(crc, f, q, FULL, data)
    ensures ReadRecordFrom(crc, f, p, None) == RecordRead(Some(data), q + 7 + |data|, 0)
  {
    PhysicalMeans(crc, f, p);
    PhysicalUnique(crc, f, p, ReadPhysical(crc, f, p), Got(FIRST, [], p + 7));
    PhysicalMeans(crc, f, p + 7);
    PhysicalUnique(crc, f, p + 7, ReadPhysical(crc, f, p + 7), Got(FULL, data, q + 7 + |data|));
  }

  // All that holds of reading a record, of the bytes alone.
  ghost predicate SoundRead(crc: Checksum, f: Bytes, pos: nat, r: RecordRead) {
    && (r.record.Some? ==> exists ps :: RecordAt(crc, f, ps, r.record.value, pos, r.next))
    && (r.record.Some? && r.reports == 0 ==> exists rs :: Scan(crc, f, pos, rs, r.next) && Payload(rs) == r.record.value)
    && (r.record.None? ==> exists rs, end :: Scan(crc, f, pos, rs, end) && StopsAt(crc, f, end))
  }

  lemma ReadIsSound(crc: Checksum, f: Bytes, pos: nat)
    requires pos <= |f|
    ensures SoundRead(crc, f, pos, ReadRecordFrom(crc, f, pos, None))
  {
    RecordIsThere(crc, f, pos);
    NothingLost(crc, f, pos);
  }

  // ---------- the writer ----------

  lemma WrittenIsFragment(crc: Checksum, g: Bytes, q: nat, kind: Byte, data: Bytes)
    requires Fits(q, |data|) && |data| <= 0xffff && kind != 0 && At(g, q, Physical(crc, kind, data))
    ensures FragmentAt(crc, g, q, kind, data)
  {
    HeaderFields(crc, g, q, kind, data);
    FitsBlock(q, |data|);
  }

  lemma FragmentIsThere(crc: Checksum, g: Bytes, p: nat, data: Bytes, begin: bool)
    requires At(g, p, Fragment(crc, p, data, begin))
    ensures var n := FragmentLength(p, |data|);
            && FragmentAt(crc, g, HeaderPlace(p), Kind(begin, n == |data|), data[..n])
            && HeaderPlace(p) + 7 + n == p + |Fragment(crc, p, data, begin)|
  {
    var n := FragmentLength(p, |data|);
    AfterPadding(p);
    FragmentFits(p, |data|);
    AtSplit(g, p, Zeros(Padding(p)), Physical(crc, Kind(begin, n == |data|), data[..n]));
    WrittenIsFragment(crc, g, HeaderPlace(p), Kind(begin, n == |data|), data[..n]);
  }

  // The pieces written so far, with `rest` still to be written at p.
  ghost predicate WrittenSoFar(crc: Checksum, g: Bytes, ps: seq<Piece>, from: nat, p: nat) {
    && Linked(crc, g, ps) && (ps != [] ==> Begun(ps) && from <= ps[0].at && p == After(ps[|ps| - 1]))
    && (ps == [] ==> from == p)
  }

  lemma PieceWritten(crc: Checksum, g: Bytes, p: nat, data: Bytes, begin: bool, n: nat, one: Bytes) returns (x: Piece)
    requires n == FragmentLength(p, |data|) && one == Fragment(crc, p, data, begin) && At(g, p, one)
    ensures FragmentAt(crc, g, x.at, x.kind, x.data) && x.at == HeaderPlace(p) && After(x) == p + |one|
    ensures x.kind == Kind(begin, n == |data|) && x.data == data[..n]
  {
    FragmentIsThere(crc, g, p, data, begin);
    x := Piece(HeaderPlace(p), Kind(begin, n == |data|), data[..n]);
  }

  // The same, to be looked into only where WrittenSoFar is written.
  ghost predicate Written(crc: Checksum, g: Bytes, ps: seq<Piece>, from: nat, p: nat) {
    forall x {:trigger WrittenSoFar(crc, g, ps, from, x)} :: x == p ==> WrittenSoFar(crc, g, ps, from, x)
  }

  ghost predicate LaidOut(crc: Checksum, g: Bytes, data: Bytes, from: nat, next: nat) {
    exists ps :: RecordAt(crc, g, ps, data, from, next)
  }

  lemma LastWritten(crc: Checksum, g: Bytes, p: nat, data: Bytes, ps: seq<Piece>, from: nat, begin: bool, n: nat, one: Bytes)
    requires begin == (ps == []) && n == FragmentLength(p, |data|) == |data| && one == Fragment(crc, p, data, begin)
    requires Written(crc, g, ps, from, p) && At(g, p, one)
    ensures LaidOut(crc, g, Joined(ps) + data, from, p + |one|)
  {
    assert WrittenSoFar(crc, g, ps, from, p);
    var x := PieceWritten(crc, g, p, data, begin, n, one);
    LinkMore(crc, g, ps, x);
    var all := ps + [x];
    assert all[..|ps|] == ps && data[..|data|] == data;
    assert RecordAt(crc, g, all, Joined(ps) + data, from, p + |one|);
  }

  lemma MoreWritten(crc: Checksum, g: Bytes, p: nat, data: Bytes, ps: seq<Piece>, from: nat, begin: bool, n: nat, one: Bytes)
    returns (more: seq<Piece>)
    requires begin == (ps == []) && n == FragmentLength(p, |data|) < |data| && one == Fragment(crc, p, data, begin)
    requires Written(crc, g, ps, from, p) && At(g, p, one)
    ensures more != [] && Joined(more) == Joined(ps) + data[..n] && Written(crc, g, more, from, p + |one|)
  {
    assert WrittenSoFar(crc, g, ps, from, p);
    var x := PieceWritten(crc, g, p, data, begin, n, one);
    LinkMore(crc, g, ps, x);
    more := ps + [x];
    assert WrittenSoFar(crc, g, more, from, p + |one|);
  }

  lemma {:induction false} RecordWritten(crc: Checksum, g: Bytes, p: nat, data: Bytes, ps: seq<Piece>, from: nat, begin: bool,
      whole: Bytes)
    requires begin == (ps == []) && whole == Fragments(crc, p, data, begin)
    requires Written(crc, g, ps, from, p) && At(g, p, whole)
    ensures LaidOut(crc, g, Joined(ps) + data, from, p + |whole|)
    decreases |data|, if p % BLOCK == BLOCK - HEADER then 1 else 0
  {
    var n, one, rest := FragmentsSplit(crc, p, data, begin);
    if n == |data| {
      LastWritten(crc, g, p, data, ps, from, begin, n, one);
    } else {
      AtSplit(g, p, one, rest);
      var more := MoreWritten(crc, g, p, data, ps, from, begin, n, one);
      if n == 0 {
        FragmentProgress(p, |data|);
      }
      RecordWritten(crc, g, p + |one|, data[n..], more, from, false, rest);
      TakeAndDrop(Joined(ps), data, n);
    }
  }

  // Adding a record lays it out as its fragments, each in its block and under its checksum.
  lemma RecordIsLaidOut(crc: Checksum, g: Bytes, p: nat, data: Bytes)
    requires At(g, p, Fragments(crc, p, data, true))
    ensures LaidOut(crc, g, data, p, p + |Fragments(crc, p, data, true)|)
  {
    assert WrittenSoFar(crc, g, [], p, p);
    RecordWritten(crc, g, p, data, [], p, true, Fragments(crc, p, data, true));
    assert Joined([]) + data == data;
  }
}
