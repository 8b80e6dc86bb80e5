/** What a stream of bytes is to nanopb's decoder (pb_decode.c, pb_decode_noinit): a list of
  records, each a tag and a payload that ends where its wire type says (Protocol Buffers
  encoding specification, section "Message Structure"), up to the end or a zero tag. */
module PbRecords {
  import opened Wrappers
  import opened Keys
  import opened Coding
  import opened Varints
  import opened PbVarint
  import opened PbMessage
  import opened PbDecoding

  // A length and exactly that many bytes.
  ghost predicate Prefixed(b: Bytes, p: Bytes, body: Bytes) {
    b == p + body && IsVarint(p) && DecodeVarint32(p).Some? && Base128(p) % TWO32 == |body|
  }

  // The bytes that a payload of this wire type has.
  ghost predicate Extent(wire: nat, b: Bytes) {
    if wire == 0 then IsVarint(b)
    else if wire == 1 then |b| == 8
    else if wire == 2 then exists p, body :: Prefixed(b, p, body)
    else wire == 5 && |b| == 4
  }

  // ---------- lengths ----------

  lemma StringMeans(p: Bytes, body: Bytes, rest: Bytes)
    requires Prefixed(p + body, p, body)
    ensures DecodeVarint32(p + body + rest) == Some(Decoded(|body|, body + rest))
    ensures Read(body + rest, |body|) == Some(Decoded(body, rest))
    ensures DecodeString(p + body + rest) == Some(Decoded(body, rest))
  {
    assert p + body + rest == p + (body + rest);
    PbVarint32Means(p, body + rest);
  }

  // A decoded length, and that many bytes.
  lemma StringTakes(s: Bytes) returns (p: Bytes, body: Bytes, rest: Bytes)
    ensures DecodeString(s).Some? ==> Prefixed(p + body, p, body) && s == p + body + rest
  {
    var after;
    p, after := FirstVarint(s);
    PbVarint32Means(p, after);
    if Unending(s) {
      PbVarint32Means(s, []);
      body, rest := [], [];
    } else if DecodeString(s).Some? {
      var n := DecodeVarint32(s).value.value;
      body, rest := after[..n], after[n..];
      assert s == p + body + rest;
    } else {
      body, rest := [], [];
    }
  }

  // ---------- skipping ----------

  lemma {:induction false} SkipVarintMeans(p: Bytes, rest: Bytes)
    ensures IsVarint(p) ==> SkipVarint(p + rest) == Some(rest)
    ensures Unending(p) ==> SkipVarint(p) == None
    decreases |p|
  {
    if IsVarint(p) {
      TailOfVarint(p, rest);
      if p[0] >= 128 {
        SkipVarintMeans(p[1..], rest);
      }
    }
    if Unending(p) && p != [] {
      SkipVarintMeans(p[1..], rest);
    }
  }

  // Skipping takes exactly the payload of the wire type away.
  lemma SkipMeans(wire: nat, b: Bytes, rest: Bytes)
    requires Extent(wire, b)
    ensures SkipField(wire, b + rest) == Some(rest)
  {
    if wire == 0 {
      SkipVarintMeans(b, rest);
    } else if wire == 2 {
      var p, body :| Prefixed(b, p, body);
      StringMeans(p, body, rest);
    }
  }

  // And fails when there is none.
  lemma SkipTakes(wire: nat, s: Bytes) returns (b: Bytes)
    ensures SkipField(wire, s).Some? ==> s == b + SkipField(wire, s).value && Extent(wire, b)
  {
    b := [];
    if wire == 0 {
      var p, rest := FirstVarint(s);
      SkipVarintMeans(p, rest);
      SkipVarintMeans(s, []);
      b := p;
    } else if wire == 1 && |s| >= 8 {
      b := s[..8];
    } else if wire == 2 && DecodeString(s).Some? {
      var p, body, rest := StringTakes(s);
      StringMeans(p, body, rest);
      assert Prefixed(p + body, p, body);
      b := p + body;
    } else if wire == 5 && |s| >= 4 {
      b := s[..4];
    }
  }

  // ---------- the value of a field ----------

  // The same value, with more bytes behind it.
  function Behind<T>(d: Option<Decoded<T>>, rest: Bytes): Option<Decoded<T>> {
    match d
    case None => None
    case Some(d) => Some(Decoded(d.value, d.rest + rest))
  }

  lemma {:induction false} VarintValueAlone(lt: LType, p: Bytes, rest: Bytes, current: PbValue)
    requires IsVarint(p) && WireType(lt) == 0
    ensures DecodeValue(lt, p, current).Some? ==> DecodeValue(lt, p, current).value.rest == []
    ensures DecodeValue(lt, p + rest, current) == Behind(DecodeValue(lt, p, current), rest)
  {
    assert p + [] == p && [] + rest == rest;
    if lt.Bool? {
      PbVarint32Means(p, rest);
      PbVarint32Means(p, []);
    } else {
      Varint64Means(p, rest);
      Varint64Means(p, []);
    }
  }

  lemma {:induction false} PrefixedValueAlone(lt: LType, p: Bytes, body: Bytes, rest: Bytes, current: PbValue)
    requires Prefixed(p + body, p, body) && WireType(lt) == 2
    ensures DecodeValue(lt, p + body, current).Some? ==> DecodeValue(lt, p + body, current).value.rest == []
    ensures DecodeValue(lt, p + body + rest, current) == Behind(DecodeValue(lt, p + body, current), rest)
  {
    StringMeans(p, body, rest);
    StringMeans(p, body, []);
    assert p + body + [] == p + body && body + [] == body && [] + rest == rest;
  }

  lemma Fixed32Alone(b: Bytes, rest: Bytes)
    requires |b| >= 4
    ensures DecodeFixed32(b + rest) == DecodeFixed32(b)
  {
  }

  lemma Fixed64Alone(b: Bytes, rest: Bytes)
    requires |b| >= 8
    ensures DecodeFixed64(b + rest) == DecodeFixed64(b)
  {
    assert (b + rest)[4..] == b[4..] + rest;
    Fixed32Alone(b, rest);
    Fixed32Alone(b[4..], rest);
  }

  lemma {:induction false} FixedValueAlone(lt: LType, b: Bytes, rest: Bytes, current: PbValue)
    requires (lt.Fixed32? && |b| == 4) || (lt.Fixed64? && |b| == 8)
    ensures DecodeValue(lt, b, current).Some? && DecodeValue(lt, b, current).value.rest == []
    ensures DecodeValue(lt, b + rest, current) == Behind(DecodeValue(lt, b, current), rest)
  {
    assert [] + rest == rest && (b + rest)[|b|..] == rest;
    if lt.Fixed64? {
      Fixed64Alone(b, rest);
    } else {
      Fixed32Alone(b, rest);
    }
  }

  // A value takes the payload of the wire type of its field, and does not depend on what
  // follows it.
  ghost predicate StandsAlone(lt: LType, b: Bytes, rest: Bytes, current: PbValue) {
    && (DecodeValue(lt, b, current).Some? ==> DecodeValue(lt, b, current).value.rest == [])
    && DecodeValue(lt, b + rest, current) == Behind(DecodeValue(lt, b, current), rest)
  }

  lemma {:induction false} ValueAlone(lt: LType, b: Bytes, rest: Bytes, current: PbValue)
    requires Extent(WireType(lt), b)
    ensures StandsAlone(lt, b, rest, current)
  {
    if lt.Fixed32? || lt.Fixed64? {
      FixedValueAlone(lt, b, rest, current);
    } else if WireType(lt) == 0 {
      VarintValueAlone(lt, b, rest, current);
    } else {
      var p, body :| Prefixed(b, p, body);
      PrefixedValueAlone(lt, p, body, rest, current);
    }
  }

  lemma {:induction false} VarintValueTakes(lt: LType, s: Bytes, current: PbValue) returns (b: Bytes)
    requires WireType(lt) == 0
    ensures DecodeValue(lt, s, current).Some? ==> s == b + DecodeValue(lt, s, current).value.rest && Extent(0, b)
  {
    var rest;
    b, rest := FirstVarint(s);
    PbVarint32Means(b, rest);
    PbVarint32Means(s, []);
    Varint64Means(b, rest);
    Varint64Means(s, []);
  }

  lemma {:induction false} PrefixedValueTakes(lt: LType, s: Bytes, current: PbValue) returns (b: Bytes)
    requires WireType(lt) == 2
    ensures DecodeValue(lt, s, current).Some? ==> s == b + DecodeValue(lt, s, current).value.rest && Extent(2, b)
  {
    var p, body, rest := StringTakes(s);
    b := p + body;
    if DecodeValue(lt, s, current).Some? {
      assert DecodeString(s).Some?;
      StringMeans(p, body, rest);
      assert Prefixed(b, p, body);
    }
  }

  lemma {:induction false} ValueTakes(lt: LType, s: Bytes, current: PbValue) returns (b: Bytes)
    ensures DecodeValue(lt, s, current).Some? ==>
              && s == b + DecodeValue(lt, s, current).value.rest && Extent(WireType(lt), b)
              && DecodeValue(lt, b, current) == Some(Decoded(DecodeValue(lt, s, current).value.value, []))
  {
    if WireType(lt) == 0 {
      b := VarintValueTakes(lt, s, current);
    } else if WireType(lt) == 2 {
      b := PrefixedValueTakes(lt, s, current);
    } else {
      b := s[..if WireType(lt) == 1 && |s| >= 8 then 8 else if |s| >= 4 then 4 else 0];
    }
    if DecodeValue(lt, s, current).Some? {
      ValueAlone(lt, b, DecodeValue(lt, s, current).value.rest, current);
    }
  }

  // The wire type that a field is written with says how far its value goes: skipping the field
  // leaves what decoding it leaves.
  lemma {:induction false} SkipsWhatItDecodes(lt: LType, s: Bytes, current: PbValue)
    ensures DecodeValue(lt, s, current).Some? ==> SkipField(WireType(lt), s) == Some(DecodeValue(lt, s, current).value.rest)
  {
    var b := ValueTakes(lt, s, current);
    if DecodeValue(lt, s, current).Some? {
      SkipMeans(WireType(lt), b, DecodeValue(lt, s, current).value.rest);
    }
  }

  // ---------- one field ----------

  predicate Packed(f: Field, wire: nat) {
    f.rule.Repeated? && wire == 2 && Packable(f.ltype)
  }

  // The wire type that decides how far a field goes: an array of numbers may be packed.
  function Carried(f: Field, wire: nat): nat {
    if Packed(f, wire) then 2 else WireType(f.ltype)
  }

  lemma {:induction false} PackedAlone(fs: seq<Field>, i: nat, b: Bytes, rest: Bytes, slots: seq<Slot>)
    requires i < |fs| == |slots| && Packed(fs[i], 2) && Extent(2, b)
    ensures DecodeField(fs, i, 2, b, slots).Some? ==> DecodeField(fs, i, 2, b, slots).value.rest == []
    ensures DecodeField(fs, i, 2, b + rest, slots) == Behind(DecodeField(fs, i, 2, b, slots), rest)
  {
    var p, body :| Prefixed(b, p, body);
    StringMeans(p, body, rest);
    StringMeans(p, body, []);
    assert p + body + [] == p + body && [] + rest == rest;
  }

  lemma {:induction false} FieldAlone(fs: seq<Field>, i: nat, wire: nat, b: Bytes, rest: Bytes, slots: seq<Slot>)
    requires i < |fs| == |slots| && Extent(Carried(fs[i], wire), b)
    ensures DecodeField(fs, i, wire, b, slots).Some? ==> DecodeField(fs, i, wire, b, slots).value.rest == []
    ensures DecodeField(fs, i, wire, b + rest, slots) == Behind(DecodeField(fs, i, wire, b, slots), rest)
  {
    var f := fs[i];
    if Packed(f, wire) {
      PackedAlone(fs, i, b, rest, slots);
    } else {
      ValueAlone(f.ltype, b, rest, Current(f, slots[i]));
      ValueAlone(f.ltype, b, rest, DefaultValue(f.ltype));
    }
  }

  lemma {:induction false} FieldTakes(fs: seq<Field>, i: nat, wire: nat, s: Bytes, slots: seq<Slot>) returns (b: Bytes)
    requires i < |fs| == |slots|
    ensures DecodeField(fs, i, wire, s, slots).Some? ==>
              && s == b + DecodeField(fs, i, wire, s, slots).value.rest && Extent(Carried(fs[i], wire), b)
  {
    var f := fs[i];
    if Packed(f, wire) {
      var p, body, rest := StringTakes(s);
      b := p + body;
      if DecodeString(s).Some? {
        StringMeans(p, body, rest);
        assert Prefixed(b, p, body);
      }
    } else {
      b := ValueTakes(f.ltype, s, if f.rule.Repeated? then DefaultValue(f.ltype) else Current(f, slots[i]));
    }
  }

  // ---------- records ----------

  datatype Record = Record(tag: nat, wire: nat, header: Bytes, payload: Bytes)

  predicate Known(fs: seq<Field>, tag: nat) {
    exists i :: 0 <= i < |fs| && fs[i].tag == tag
  }

  // How far the payload goes. An empty array of fields has its terminator, with tag 0, for a
  // field that is read like a bool.
  ghost predicate IsPayload(fs: seq<Field>, r: Record) {
    && (forall i :: 0 <= i < |fs| && fs[i].tag == r.tag ==> Extent(Carried(fs[i], r.wire), r.payload))
    && (!Known(fs, r.tag) ==> Extent(if fs == [] && r.tag == 0 then 0 else r.wire, r.payload))
  }

  ghost predicate IsRecord(fs: seq<Field>, r: Record) {
    && IsVarint(r.header) && DecodeVarint32(r.header).Some? && Base128(r.header) % TWO32 == 8 * r.tag + r.wire
    && r.wire < 8 && 8 * r.tag + r.wire != 0
    && IsPayload(fs, r)
  }

  function Flatten(rs: seq<Record>): Bytes {
    if rs == [] then [] else rs[0].header + rs[0].payload + Flatten(rs[1..])
  }

  // Where the message ends: at the end of the stream, or at a zero tag.
  predicate Ended(tail: Bytes) {
    tail == [] || (DecodeVarint32(tail).Some? && DecodeVarint32(tail).value.value == 0)
  }

  ghost predicate AllRecords(fs: seq<Field>, rs: seq<Record>) {
    forall k :: 0 <= k < |rs| ==> IsRecord(fs, rs[k])
  }

  ghost predicate Records(fs: seq<Field>, s: Bytes, rs: seq<Record>) {
    AllRecords(fs, rs) && exists tail :: s == Flatten(rs) + tail && Ended(tail)
  }

  // What a record does to the message: decode the field with its tag from its payload, or
  // nothing when there is none.
  function Effect(fs: seq<Field>, r: Record, slots: seq<Slot>): (next: Option<seq<Slot>>)
    requires |slots| == |fs|
    ensures next.Some? ==> |next.value| == |fs|
  {
    match Find(fs, r.tag)
    case Some(i) =>
      (match DecodeField(fs, i, r.wire, r.payload, slots)
       case None => None
       case Some(d) => Some(d.value))
    case None => if fs == [] && r.tag == 0 && DecodeVarint32(r.payload).None? then None else Some(slots)
  }

  function Effects(fs: seq<Field>, rs: seq<Record>, slots: seq<Slot>): (next: Option<seq<Slot>>)
    requires |slots| == |fs|
    ensures next.Some? ==> |next.value| == |fs|
  {
    if rs == [] then Some(slots)
    else
      match Effect(fs, rs[0], slots)
      case None => None
      case Some(more) => Effects(fs, rs[1..], more)
  }

  // Each of the first 64 required fields has a record.
  ghost predicate RequiredPresent(fs: seq<Field>, rs: seq<Record>) {
    forall i :: 0 <= i < |fs| && fs[i].rule.Required? && |RequiredUpTo(fs, i)| < 64 ==>
      exists k :: 0 <= k < |rs| && rs[k].tag == fs[i].tag
  }

  ghost function RequiredUpTo(fs: seq<Field>, i: nat): set<nat>
    requires i <= |fs|
  {
    set j: nat | j < i && fs[j].rule.Required?
  }

  // ---------- once around the loop ----------

  function Mark(fs: seq<Field>, r: Record, seen: set<nat>): set<nat> {
    match Find(fs, r.tag)
    case Some(i) => Saw(fs, i, seen)
    case None => if fs == [] && r.tag == 0 then seen + {0} else seen
  }

  lemma {:induction false} HeaderMeans(fs: seq<Field>, r: Record, more: Bytes)
    requires IsRecord(fs, r)
    ensures DecodeVarint32(r.header + more) == Some(Decoded(8 * r.tag + r.wire, more)) && r.header + more != []
    ensures (8 * r.tag + r.wire) / 8 == r.tag && (8 * r.tag + r.wire) % 8 == r.wire
  {
    PbVarint32Means(r.header, more);
  }

  // What the decoding loop does with the payload, once the header is read.
  lemma {:induction false} PayloadMeans(fs: seq<Field>, r: Record, rest: Bytes, slots: seq<Slot>)
    requires |slots| == |fs| && IsRecord(fs, r)
    ensures match Find(fs, r.tag)
            case Some(i) =>
              DecodeField(fs, i, r.wire, r.payload + rest, slots)
              == (if Effect(fs, r, slots).None? then None else Some(Decoded(Effect(fs, r, slots).value, rest)))
            case None =>
              if fs == [] && r.tag == 0 then
                && (DecodeVarint32(r.payload + rest).Some? <==> Effect(fs, r, slots) == Some(slots))
                && (DecodeVarint32(r.payload + rest).Some? ==> DecodeVarint32(r.payload + rest).value.rest == rest)
              else
                SkipField(r.wire, r.payload + rest) == Some(rest) && Effect(fs, r, slots) == Some(slots)
  {
    match Find(fs, r.tag)
    case Some(i) =>
      FieldAlone(fs, i, r.wire, r.payload, rest, slots);
      assert [] + rest == rest;
    case None =>
      assert !Known(fs, r.tag);
      if fs == [] && r.tag == 0 {
        PbVarint32Means(r.payload, rest);
      } else {
        SkipMeans(r.wire, r.payload, rest);
      }
  }

  lemma {:induction false} LoopGives(fs: seq<Field>, r: Record, rest: Bytes, slots: seq<Slot>, seen: set<nat>)
    requires |slots| == |fs| && IsRecord(fs, r)
    ensures DecodeLoop(fs, r.header + r.payload + rest, slots, seen)
         == if Effect(fs, r, slots).None? then None
            else DecodeLoop(fs, rest, Effect(fs, r, slots).value, Mark(fs, r, seen))
  {
    assert r.header + r.payload + rest == r.header + (r.payload + rest);
    HeaderMeans(fs, r, r.payload + rest);
    PayloadMeans(fs, r, rest, slots);
  }

  // The bytes that the loop takes for the payload behind a header, when it goes on.
  lemma {:induction false} PayloadTakes(fs: seq<Field>, tag: nat, wire: nat, more: Bytes, slots: seq<Slot>)
    returns (payload: Bytes, rest: Bytes)
    requires ValidFields(fs) && |slots| == |fs|
    requires match Find(fs, tag)
             case Some(i) => DecodeField(fs, i, wire, more, slots).Some?
             case None =>
               if fs == [] && tag == 0 then DecodeVarint32(more).Some? else SkipField(wire, more).Some?
    ensures more == payload + rest && IsPayload(fs, Record(tag, wire, [], payload))
  {
    match Find(fs, tag)
    case Some(i) =>
      payload := FieldTakes(fs, i, wire, more, slots);
      rest := DecodeField(fs, i, wire, more, slots).value.rest;
    case None =>
      if fs == [] && tag == 0 {
        payload, rest := FirstVarint(more);
        PbVarint32Means(more, []);
      } else {
        payload := SkipTakes(wire, more);
        rest := SkipField(wire, more).value;
      }
  }

  lemma {:induction false} LoopTakes(fs: seq<Field>, s: Bytes, slots: seq<Slot>, seen: set<nat>) returns (r: Record, rest: Bytes)
    requires ValidFields(fs) && |slots| == |fs| && DecodeLoop(fs, s, slots, seen).Some? && !Ended(s)
    ensures s == r.header + r.payload + rest && IsRecord(fs, r) && |rest| < |s|
  {
    var header, more := FirstVarint(s);
    PbVarint32Means(s, []);
    PbVarint32Means(header, more);
    var v := DecodeVarint32(s).value.value;
    assert DecodeVarint32(s) == Some(Decoded(v, more));
    var payload;
    payload, rest := PayloadTakes(fs, v / 8, v % 8, more, slots);
    r := Record(v / 8, v % 8, header, payload);
    assert s == header + payload + rest;
    PbVarint32Means(header, []);
    assert header + [] == header;
  }

  // ---------- all records ----------

  function Marks(fs: seq<Field>, rs: seq<Record>, seen: set<nat>): set<nat> {
    if rs == [] then seen else Marks(fs, rs[1..], Mark(fs, rs[0], seen))
  }

  lemma {:induction false} LoopEnds(fs: seq<Field>, s: Bytes, slots: seq<Slot>, seen: set<nat>)
    requires |slots| == |fs| && Ended(s)
    ensures DecodeLoop(fs, s, slots, seen) == Some((slots, seen))
  {
  }

  lemma FlattenFirst(rs: seq<Record>, tail: Bytes)
    requires rs != []
    ensures Flatten(rs) + tail == rs[0].header + rs[0].payload + (Flatten(rs[1..]) + tail)
  {
  }

  // The loop goes from record to record.
  lemma {:induction false} LoopOf(fs: seq<Field>, rs: seq<Record>, tail: Bytes, slots: seq<Slot>, seen: set<nat>)
    requires |slots| == |fs| && Ended(tail) && AllRecords(fs, rs)
    ensures DecodeLoop(fs, Flatten(rs) + tail, slots, seen)
         == if Effects(fs, rs, slots).None? then None else Some((Effects(fs, rs, slots).value, Marks(fs, rs, seen)))
    decreases |rs|
  {
    if rs == [] {
      assert [] + tail == tail;
      LoopEnds(fs, tail, slots, seen);
    } else {
      var rest := Flatten(rs[1..]) + tail;
      FlattenFirst(rs, tail);
      LoopGives(fs, rs[0], rest, slots, seen);
      if Effect(fs, rs[0], slots).Some? {
        LoopOf(fs, rs[1..], tail, Effect(fs, rs[0], slots).value, Mark(fs, rs[0], seen));
      }
    }
  }

  // A stream that the loop accepts is a list of records.
  lemma {:induction false} RecordsOf(fs: seq<Field>, s: Bytes, slots: seq<Slot>, seen: set<nat>) returns (rs: seq<Record>, tail: Bytes)
    requires ValidFields(fs) && |slots| == |fs| && DecodeLoop(fs, s, slots, seen).Some?
    ensures AllRecords(fs, rs) && s == Flatten(rs) + tail && Ended(tail)
    decreases |s|
  {
    if Ended(s) {
      rs, tail := [], s;
      assert [] + s == s;
    } else {
      var r, rest := LoopTakes(fs, s, slots, seen);
      LoopGives(fs, r, rest, slots, seen);
      rs, tail := RecordsOf(fs, rest, Effect(fs, r, slots).value, Mark(fs, r, seen));
      var all := [r] + rs;
      assert all[1..] == rs;
      assert r.header + r.payload + (Flatten(rs) + tail) == Flatten(all) + tail;
      rs := all;
    }
  }

  // ---------- required fields ----------

  lemma {:induction false} RequiredCounts(fs: seq<Field>, i: nat)
    requires i <= |fs|
    ensures |RequiredUpTo(fs, i)| == RequiredBefore(fs, i)
    decreases i
  {
    if i > 0 {
      RequiredCounts(fs, i - 1);
      assert RequiredUpTo(fs, i) == RequiredUpTo(fs, i - 1) + if fs[i - 1].rule.Required? then {i - 1} else {};
    } else {
      assert RequiredUpTo(fs, 0) == {};
    }
  }

  lemma {:induction false} RequiredAscends(fs: seq<Field>, i: nat, j: nat)
    requires i <= j <= |fs|
    ensures RequiredBefore(fs, i) <= RequiredBefore(fs, j)
    decreases j
  {
    if i < j {
      RequiredAscends(fs, i, j - 1);
    }
  }

  lemma {:induction false} RequiredAt(fs: seq<Field>, n: nat, k: nat) returns (i: nat)
    requires n <= |fs| && k < RequiredBefore(fs, n)
    ensures i < n && fs[i].rule.Required? && RequiredBefore(fs, i) == k
    decreases n
  {
    if RequiredBefore(fs, n - 1) <= k {
      i := n - 1;
    } else {
      i := RequiredAt(fs, n - 1, k);
    }
  }

  lemma RequiredGrows(fs: seq<Field>, i: nat, j: nat)
    requires i < j < |fs| && fs[i].rule.Required?
    ensures RequiredBefore(fs, i) < RequiredBefore(fs, j)
  {
    RequiredAscends(fs, i + 1, j);
  }

  // A record marks its field, when that is required and among the first 64.
  ghost predicate MarksField(fs: seq<Field>, r: Record, k: nat) {
    exists i :: 0 <= i < |fs| && fs[i].tag == r.tag && fs[i].rule.Required? && RequiredBefore(fs, i) == k < 64
  }

  lemma MarkMeans(fs: seq<Field>, r: Record, seen: set<nat>, k: nat)
    requires ValidFields(fs) && fs != []
    ensures k in Mark(fs, r, seen) <==> k in seen || MarksField(fs, r, k)
  {
    if MarksField(fs, r, k) {
      var i :| 0 <= i < |fs| && fs[i].tag == r.tag && fs[i].rule.Required? && RequiredBefore(fs, i) == k < 64;
      assert Find(fs, r.tag) == Some(i);
    }
  }

  lemma {:induction false} MarksMean(fs: seq<Field>, rs: seq<Record>, seen: set<nat>, k: nat)
    requires ValidFields(fs) && fs != []
    ensures k in Marks(fs, rs, seen) <==> k in seen || exists j :: 0 <= j < |rs| && MarksField(fs, rs[j], k)
    decreases |rs|
  {
    if rs != [] {
      MarkMeans(fs, rs[0], seen, k);
      MarksMean(fs, rs[1..], Mark(fs, rs[0], seen), k);
      if j :| 0 <= j < |rs| && MarksField(fs, rs[j], k) {
        assert j > 0 ==> rs[1..][j - 1] == rs[j];
      }
      if j :| 0 <= j < |rs[1..]| && MarksField(fs, rs[1..][j], k) {
        assert rs[j + 1] == rs[1..][j];
      }
    }
  }

  // A required field is marked by its own records only.
  lemma MarkIsOfField(fs: seq<Field>, r: Record, i: nat)
    requires i < |fs| && fs[i].rule.Required? && MarksField(fs, r, RequiredBefore(fs, i))
    ensures r.tag == fs[i].tag
  {
    var h :| 0 <= h < |fs| && fs[h].tag == r.tag && fs[h].rule.Required? && RequiredBefore(fs, h) == RequiredBefore(fs, i);
    if i < h {
      RequiredGrows(fs, i, h);
    } else if h < i {
      RequiredGrows(fs, h, i);
    }
  }

  lemma RequiredIsSeen(fs: seq<Field>, rs: seq<Record>)
    requires ValidFields(fs) && fs != [] && RequiredPresent(fs, rs)
    ensures RequiredOk(fs, Marks(fs, rs, {}))
  {
    forall k: nat | k < RequiredBefore(fs, |fs|) && k < MAX_REQUIRED_FIELDS
      ensures k in Marks(fs, rs, {})
    {
      var i := RequiredAt(fs, |fs|, k);
      RequiredCounts(fs, i);
      var j :| 0 <= j < |rs| && rs[j].tag == fs[i].tag;
      assert MarksField(fs, rs[j], k);
      MarksMean(fs, rs, {}, k);
    }
  }

  lemma SeenIsRequired(fs: seq<Field>, rs: seq<Record>)
    requires ValidFields(fs) && fs != [] && RequiredOk(fs, Marks(fs, rs, {}))
    ensures RequiredPresent(fs, rs)
  {
    forall i | 0 <= i < |fs| && fs[i].rule.Required? && |RequiredUpTo(fs, i)| < 64
      ensures exists j :: 0 <= j < |rs| && rs[j].tag == fs[i].tag
    {
      RequiredCounts(fs, i);
      var k := RequiredBefore(fs, i);
      RequiredAscends(fs, i + 1, |fs|);
      MarksMean(fs, rs, {}, k);
      var j :| 0 <= j < |rs| && MarksField(fs, rs[j], k);
      MarkIsOfField(fs, rs[j], i);
    }
  }

  lemma RequiredMeans(fs: seq<Field>, rs: seq<Record>)
    requires ValidFields(fs)
    ensures RequiredOk(fs, Marks(fs, rs, {})) <==> RequiredPresent(fs, rs)
  {
    if fs != [] {
      if RequiredPresent(fs, rs) {
        RequiredIsSeen(fs, rs);
      }
      if RequiredOk(fs, Marks(fs, rs, {})) {
        SeenIsRequired(fs, rs);
      }
    }
  }

  // ---------- the message ----------

  // Decoding succeeds exactly for a list of records, each of which decodes, with one for each
  // of the first 64 required fields; the message is what the records make of it, in order.
  lemma {:induction false} DecodeMeans(fs: seq<Field>, s: Bytes, slots: seq<Slot>, out: seq<Slot>)
    requires ValidFields(fs) && |slots| == |fs|
    ensures DecodeNoinit(fs, s, slots) == Some(out) <==>
            exists rs :: Records(fs, s, rs) && Effects(fs, rs, slots) == Some(out) && RequiredPresent(fs, rs)
  {
    if DecodeNoinit(fs, s, slots) == Some(out) {
      var rs, tail := RecordsOf(fs, s, slots, {});
      LoopOf(fs, rs, tail, slots, {});
      RequiredMeans(fs, rs);
      assert Records(fs, s, rs);
    }
    if rs :| Records(fs, s, rs) && Effects(fs, rs, slots) == Some(out) && RequiredPresent(fs, rs) {
      var tail :| s == Flatten(rs) + tail && Ended(tail);
      LoopOf(fs, rs, tail, slots, {});
      RequiredMeans(fs, rs);
    }
  }

  // `r` is what these bytes are to a decoder: the message that their records make, if the
  // required fields are there, and otherwise an error.
  ghost predicate Decoding(fs: seq<Field>, s: Bytes, slots: seq<Slot>, r: Option<seq<Slot>>)
    requires |slots| == |fs|
  {
    forall out :: r == Some(out) <==>
      exists rs :: Records(fs, s, rs) && Effects(fs, rs, slots) == Some(out) && RequiredPresent(fs, rs)
  }

  // The same, to be looked into only where Decoding is written.
  ghost predicate Decodes(fs: seq<Field>, s: Bytes, slots: seq<Slot>, r: Option<seq<Slot>>)
    requires |slots| == |fs|
  {
    forall x {:trigger Decoding(fs, s, slots, x)} :: x == r ==> Decoding(fs, s, slots, x)
  }

  lemma DecodeIsDecoding(fs: seq<Field>, s: Bytes, slots: seq<Slot>, r: Option<seq<Slot>>)
    requires ValidFields(fs) && |slots| == |fs| && r == DecodeNoinit(fs, s, slots)
    ensures Decodes(fs, s, slots, r)
  {
    forall out
      ensures r == Some(out) <==>
              exists rs :: Records(fs, s, rs) && Effects(fs, rs, slots) == Some(out) && RequiredPresent(fs, rs)
    {
      if |out| == |fs| {
        DecodeMeans(fs, s, slots, out);
      }
    }
  }

  // ---------- the records are determined by the bytes ----------

  lemma ExtentUnique(wire: nat, a: Bytes, x: Bytes, b: Bytes, y: Bytes)
    requires Extent(wire, a) && Extent(wire, b) && a + x == b + y
    ensures a == b && x == y
  {
    SkipMeans(wire, a, x);
    SkipMeans(wire, b, y);
    assert a == (a + x)[..|a|] && b == (b + y)[..|b|];
  }

  // The first record of a stream: what its header says, and that there is one.
  lemma FirstHeader(fs: seq<Field>, r: Record, x: Bytes, s: Bytes)
    requires IsRecord(fs, r) && s == r.header + r.payload + x
    ensures DecodeVarint32(s) == Some(Decoded(8 * r.tag + r.wire, r.payload + x)) && !Ended(s)
    ensures (8 * r.tag + r.wire) / 8 == r.tag && (8 * r.tag + r.wire) % 8 == r.wire
    ensures r.header == s[..|s| - |r.payload + x|]
  {
    assert s == r.header + (r.payload + x);
    HeaderMeans(fs, r, r.payload + x);
  }

  lemma PayloadUnique(fs: seq<Field>, r: Record, x: Bytes, q: Record, y: Bytes)
    requires IsPayload(fs, r) && IsPayload(fs, q) && r.tag == q.tag && r.wire == q.wire
    requires r.payload + x == q.payload + y
    ensures r.payload == q.payload && x == y
  {
    if Known(fs, r.tag) {
      var i :| 0 <= i < |fs| && fs[i].tag == r.tag;
      ExtentUnique(Carried(fs[i], r.wire), r.payload, x, q.payload, y);
    } else {
      ExtentUnique(if fs == [] && r.tag == 0 then 0 else r.wire, r.payload, x, q.payload, y);
    }
  }

  lemma FirstUnique(fs: seq<Field>, r: Record, x: Bytes, q: Record, y: Bytes, s: Bytes)
    requires IsRecord(fs, r) && IsRecord(fs, q) && s == r.header + r.payload + x && s == q.header + q.payload + y
    ensures r == q && x == y
  {
    FirstHeader(fs, r, x, s);
    FirstHeader(fs, q, y, s);
    PayloadUnique(fs, r, x, q, y);
  }

  lemma FlattenNotEnded(fs: seq<Field>, rs: seq<Record>, tail: Bytes)
    requires rs != [] && IsRecord(fs, rs[0])
    ensures !Ended(Flatten(rs) + tail)
  {
    FlattenFirst(rs, tail);
    FirstHeader(fs, rs[0], Flatten(rs[1..]) + tail, Flatten(rs) + tail);
  }

  lemma FirstsUnique(fs: seq<Field>, rs: seq<Record>, x: Bytes, qs: seq<Record>, y: Bytes)
    requires rs != [] && qs != [] && IsRecord(fs, rs[0]) && IsRecord(fs, qs[0])
    requires Flatten(rs) + x == Flatten(qs) + y
    ensures rs[0] == qs[0] && Flatten(rs[1..]) + x == Flatten(qs[1..]) + y
  {
    FlattenFirst(rs, x);
    FlattenFirst(qs, y);
    FirstUnique(fs, rs[0], Flatten(rs[1..]) + x, qs[0], Flatten(qs[1..]) + y, Flatten(rs) + x);
  }

  lemma OtherRecords(fs: seq<Field>, rs: seq<Record>)
    requires rs != [] && AllRecords(fs, rs)
    ensures IsRecord(fs, rs[0]) && AllRecords(fs, rs[1..]) && rs == [rs[0]] + rs[1..]
  {
  }

  lemma {:induction false} FlattenUnique(fs: seq<Field>, rs: seq<Record>, x: Bytes, qs: seq<Record>, y: Bytes)
    requires AllRecords(fs, rs) && Ended(x) && AllRecords(fs, qs) && Ended(y)
    requires Flatten(rs) + x == Flatten(qs) + y
    ensures rs == qs
    decreases |rs|
  {
    if rs == [] {
      assert Flatten(rs) + x == x;
      if qs != [] {
        FlattenNotEnded(fs, qs, y);
      }
    } else if qs == [] {
      assert Flatten(qs) + y == y;
      FlattenNotEnded(fs, rs, x);
    } else {
      FirstsUnique(fs, rs, x, qs, y);
      OtherRecords(fs, rs);
      OtherRecords(fs, qs);
      FlattenUnique(fs, rs[1..], x, qs[1..], y);
    }
  }

  // A stream is a list of records in at most one way.
  lemma RecordsUnique(fs: seq<Field>, s: Bytes, rs: seq<Record>, qs: seq<Record>)
    requires Records(fs, s, rs) && Records(fs, s, qs)
    ensures rs == qs
  {
    var x :| s == Flatten(rs) + x && Ended(x);
    var y :| s == Flatten(qs) + y && Ended(y);
    FlattenUnique(fs, rs, x, qs, y);
  }

  // ---------- what a record leaves alone ----------

  // The record is of field j, or of another member of its oneof.
  ghost predicate Concerns(fs: seq<Field>, r: Record, j: nat)
    requires j < |fs|
  {
    exists i :: 0 <= i < |fs| && fs[i].tag == r.tag && (i == j || SameUnion(fs[i], fs[j]))
  }

  lemma {:induction false} EffectLeaves(fs: seq<Field>, r: Record, slots: seq<Slot>, j: nat)
    requires |slots| == |fs| && j < |fs| && !Concerns(fs, r, j)
    ensures Effect(fs, r, slots).Some? ==> Effect(fs, r, slots).value[j] == slots[j]
    ensures !Known(fs, r.tag) ==> Effect(fs, r, slots) == Some(slots)
  {
  }

  // A slot changes only through records of its field or its oneof: records with an unknown tag
  // change nothing.
  lemma {:induction false} EffectsLeave(fs: seq<Field>, rs: seq<Record>, slots: seq<Slot>, j: nat)
    requires |slots| == |fs| && j < |fs| && forall k :: 0 <= k < |rs| ==> !Concerns(fs, rs[k], j)
    ensures Effects(fs, rs, slots).Some? ==> Effects(fs, rs, slots).value[j] == slots[j]
    decreases |rs|
  {
    if rs != [] {
      EffectLeaves(fs, rs[0], slots, j);
      if Effect(fs, rs[0], slots).Some? {
        EffectsLeave(fs, rs[1..], Effect(fs, rs[0], slots).value, j);
      }
    }
  }

  // ---------- what the values mean ----------

  lemma UnsignedMeans(lt: LType, p: Bytes, rest: Bytes, current: PbValue)
    requires lt.Uvarint? && IsVarint(p)
    ensures DecodeValue(lt, p + rest, current)
         == var n := Base128(p) % TWO64;
            if |p| <= 10 && n < 2 * Half(lt.width) then Some(Decoded(Number(n), rest)) else None
  {
    Varint64Means(p, rest);
  }

  function Modulus(w: Width): nat {
    if w.W64? then TWO64 else TWO32
  }

  lemma Signed64Is(v: nat, n: int, k: int)
    requires v == n + k * TWO64 && -TWO63 <= n < TWO63
    ensures Signed64(v % TWO64) == n
  {
    assert v % TWO64 == if n < 0 then n + TWO64 else n;
  }

  lemma Signed32Is(v: nat, n: int, k: int)
    requires v == n + k * TWO32 && -0x8000_0000 <= n < 0x8000_0000
    ensures Signed32(v % TWO64) == n
  {
    CutTwice(v);
    assert v % TWO32 == if n < 0 then n + TWO32 else n;
  }

  lemma CutTwice(v: nat)
    ensures v % TWO64 % TWO32 == v % TWO32
  {
  }

  // An integer field takes the number that the low 64 bits stand for, and for the narrower
  // types the low 32 bits; what does not fit the type is an error.
  lemma SignedMeans(lt: LType, p: Bytes, rest: Bytes, current: PbValue, n: int, k: int)
    requires lt.Varint? && IsVarint(p)
    requires Base128(p) == n + k * Modulus(lt.width) && -(Modulus(lt.width) / 2) <= n < Modulus(lt.width) / 2
    ensures DecodeValue(lt, p + rest, current)
         == if |p| <= 10 && -Half(lt.width) <= n < Half(lt.width) then Some(Decoded(Number(n), rest)) else None
  {
    Varint64Means(p, rest);
    if lt.width.W64? {
      Signed64Is(Base128(p), n, k);
    } else {
      Signed32Is(Base128(p), n, k);
    }
  }
}
