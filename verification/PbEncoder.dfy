/** Encoding as it runs (pb_encode.c): an output stream that writes or only counts, and the
  encoder that sizes nested messages and packed arrays before it writes them. */
module PbEncoder {
  import opened Wrappers
  import opened Keys
  import opened Coding
  import opened PbVarint
  import opened PbMessage

  // What a C struct can hold. The limits of arrays are left to the encoder; sizes are
  // counted in 64 bits.
  predicate TypedValue(lt: LType, v: PbValue)
    decreases lt
  {
    && (FitsValue(lt, v) ==> |EncodeValue(lt, v)| < TWO64)
    && match lt
       case BytesType(_) => v.Data? && |v.bytes| < TWO32
       case Submessage(fs) => v.Message? && TypedMessage(fs, v.slots)
       case _ => FitsValue(lt, v)
  }

  predicate TypedSlot(f: Field, slot: Slot)
    decreases f
  {
    && (FitsSlot(f, slot) ==> |EncodeSlot(f, slot)| < TWO64)
    && match f.rule
       case Required => slot.One? && TypedValue(f.ltype, slot.value)
       case Optional => slot.Maybe? && (slot.option.Some? ==> TypedValue(f.ltype, slot.option.value))
       case Oneof(_) => slot.Maybe? && (slot.option.Some? ==> TypedValue(f.ltype, slot.option.value))
       case Repeated(n) => slot.Many? && forall i :: 0 <= i < |slot.items| ==> TypedValue(f.ltype, slot.items[i])
  }

  predicate TypedMessage(fs: seq<Field>, slots: seq<Slot>)
    decreases fs
  {
    && |slots| == |fs| && (forall i :: 0 <= i < |fs| ==> TypedSlot(fs[i], slots[i])) && OneChosen(fs, slots)
    && (FitsMessage(fs, slots) ==> |EncodeFrom(fs, slots, 0)| < TWO64)
  }

  // How a stream has to look after writing `bytes`: all of them if there is room, and
  // otherwise less than all of them. A sizing stream only counts.
  predicate WroteTo(writing: bool, maxSize: nat, out0: Bytes, count0: nat, out: Bytes, count: nat, bytes: Bytes, ok: bool) {
    if writing then
      && (ok <==> bytes == [] || count0 + |bytes| <= maxSize)
      && (ok ==> out == out0 + bytes && count == count0 + |bytes|)
      && (!ok ==> out0 <= out && out < out0 + bytes && count == count0 + |out| - |out0|)
      && (count0 <= maxSize ==> count <= maxSize)
    else
      ok && out == out0 && count == count0 + |bytes|
  }

  lemma WroteMore(writing: bool, maxSize: nat, out0: Bytes, count0: nat, out1: Bytes, count1: nat, out2: Bytes, count2: nat,
      a: Bytes, b: Bytes, ok: bool)
    requires WroteTo(writing, maxSize, out0, count0, out1, count1, a, true)
    requires WroteTo(writing, maxSize, out1, count1, out2, count2, b, ok)
    ensures WroteTo(writing, maxSize, out0, count0, out2, count2, a + b, ok)
  {
    assert out0 + a + b == out0 + (a + b);
  }

  lemma WroteLess(writing: bool, maxSize: nat, out0: Bytes, count0: nat, out: Bytes, count: nat, a: Bytes, b: Bytes)
    requires WroteTo(writing, maxSize, out0, count0, out, count, a, false)
    ensures WroteTo(writing, maxSize, out0, count0, out, count, a + b, false)
  {
    assert out0 + a <= out0 + (a + b);
  }

  // One more piece of a whole that is being written.
  lemma WroteNext(writing: bool, maxSize: nat, out0: Bytes, count0: nat, out1: Bytes, count1: nat, out2: Bytes, count2: nat,
      done: Bytes, one: Bytes, more: Bytes, whole: Bytes, ok: bool)
    requires done + (one + more) == whole
    requires WroteTo(writing, maxSize, out0, count0, out1, count1, done, true)
    requires WroteTo(writing, maxSize, out1, count1, out2, count2, one, ok)
    ensures done + one + more == whole
    ensures ok ==> WroteTo(writing, maxSize, out0, count0, out2, count2, done + one, true)
    ensures !ok ==> WroteTo(writing, maxSize, out0, count0, out2, count2, whole, false)
  {
    assert done + (one + more) == done + one + more;
    WroteMore(writing, maxSize, out0, count0, out1, count1, out2, count2, done, one, ok);
    if !ok {
      WroteLess(writing, maxSize, out0, count0, out2, count2, done + one, more);
    }
  }

  class OStream {
    // callback != NULL.
    const writing: bool
    const maxSize: nat
    var out: Bytes
    var bytesWritten: nat

    constructor (writing: bool, maxSize: nat)
      ensures this.writing == writing && this.maxSize == maxSize && out == [] && bytesWritten == 0
    {
      this.writing, this.maxSize, out, bytesWritten := writing, maxSize, [], 0;
    }

    ghost predicate Wrote(out0: Bytes, count0: nat, bytes: Bytes, ok: bool)
      reads this
    {
      WroteTo(writing, maxSize, out0, count0, out, bytesWritten, bytes, ok)
    }

    // pb_write.
    method Write(buf: Bytes) returns (ok: bool)
      modifies this
      ensures Wrote(old(out), old(bytesWritten), buf, ok)
    {
      if |buf| > 0 && writing {
        if bytesWritten + |buf| > maxSize {
          return false;
        }
        out := out + buf;
      }
      bytesWritten := bytesWritten + |buf|;
      return true;
    }

    // pb_write without a buffer, on a sizing stream.
    method Count(n: nat)
      requires !writing
      modifies this
      ensures out == old(out) && bytesWritten == old(bytesWritten) + n
    {
      bytesWritten := bytesWritten + n;
    }
  }

  // Two writes one after the other, the second only if the first went well.
  method WriteBoth(s: OStream, a: Bytes, b: Bytes) returns (ok: bool)
    modifies s
    ensures s.Wrote(old(s.out), old(s.bytesWritten), a + b, ok)
  {
    ok := s.Write(a);
    if !ok {
      WroteLess(s.writing, s.maxSize, old(s.out), old(s.bytesWritten), s.out, s.bytesWritten, a, b);
      return;
    }
    ghost var out1, count1 := s.out, s.bytesWritten;
    ok := s.Write(b);
    WroteMore(s.writing, s.maxSize, old(s.out), old(s.bytesWritten), out1, count1, s.out, s.bytesWritten, a, b, ok);
  }

  method WriteNumber(s: OStream, v: uint64) returns (ok: bool)
    modifies s
    ensures s.Wrote(old(s.out), old(s.bytesWritten), EncodeVarint(v), ok)
  {
    var bytes := WriteVarint(v);
    ok := s.Write(bytes);
  }

  // pb_encode_string.
  method WriteString(s: OStream, b: Bytes) returns (ok: bool)
    requires |b| < TWO64
    modifies s
    ensures s.Wrote(old(s.out), old(s.bytesWritten), EncodeString(b), ok)
  {
    var size := WriteVarint(|b|);
    ok := WriteBoth(s, size, b);
  }

  // Everything but nested messages.
  method EncodeScalar(s: OStream, lt: LType, v: PbValue) returns (ok: bool)
    requires !lt.Submessage? && TypedValue(lt, v) && ValidType(lt)
    modifies s
    ensures FitsValue(lt, v) ==> s.Wrote(old(s.out), old(s.bytesWritten), EncodeValue(lt, v), ok)
    ensures !FitsValue(lt, v) ==> !ok
  {
    match lt
    case Bool => ok := WriteNumber(s, v.n);
    case Varint(_) =>
      SignedRoundTrip(v.n);
      ok := WriteNumber(s, Unsigned64(v.n));
    case Uvarint(_) => ok := WriteNumber(s, v.n);
    case Svarint(_) =>
      ZigZagRoundTrip(v.n);
      ok := WriteNumber(s, ZigZag(v.n));
    case Fixed32 => ok := s.Write(EncodeFixed32(v.n));
    case Fixed64 => ok := s.Write(EncodeFixed64(v.n));
    case BytesType(n) =>
      if |v.bytes| > n {
        // Bytes size exceeded.
        return false;
      }
      ok := WriteString(s, v.bytes);
    case StringType(_) => ok := WriteString(s, v.bytes);
    case FixedLengthBytes(_) => ok := WriteString(s, v.bytes);
  }

  // pb_encode_submessage: count first, then write the length and the message, the latter
  // to a stream of exactly that size. The two passes agree.
  method EncodeSubmessage(s: OStream, fs: seq<Field>, slots: seq<Slot>) returns (ok: bool)
    requires TypedMessage(fs, slots) && ValidFields(fs)
    modifies s
    ensures FitsMessage(fs, slots) ==>
              s.Wrote(old(s.out), old(s.bytesWritten), EncodeString(EncodeFrom(fs, slots, 0)), ok)
    ensures !FitsMessage(fs, slots) ==> !ok
    decreases fs, 2
  {
    var substream := new OStream(false, 0);
    var sized := PbEncode(substream, fs, slots);
    if !sized {
      return false;
    }
    ghost var inner := EncodeFrom(fs, slots, 0);
    var size := substream.bytesWritten;
    ghost var out0, count0 := s.out, s.bytesWritten;
    ok := WriteNumber(s, size);
    if !ok {
      WroteLess(s.writing, s.maxSize, out0, count0, s.out, s.bytesWritten, EncodeVarint(size), inner);
      return;
    }
    ghost var out1, count1 := s.out, s.bytesWritten;
    if !s.writing {
      s.Count(size);
      WroteMore(false, s.maxSize, out0, count0, out1, count1, s.out, s.bytesWritten, EncodeVarint(size), inner, true);
      return true;
    }
    if s.bytesWritten + size > s.maxSize {
      // Stream full.
      WroteMore(true, s.maxSize, out0, count0, out1, count1, s.out, s.bytesWritten, EncodeVarint(size), inner, false);
      return false;
    }
    substream := new OStream(true, size);
    var status := PbEncode(substream, fs, slots);
    s.bytesWritten := s.bytesWritten + substream.bytesWritten;
    s.out := s.out + substream.out;
    if substream.bytesWritten != size {
      // Submessage size changed: the second pass cannot differ from the first.
      assert false;
    }
    WroteMore(true, s.maxSize, out0, count0, out1, count1, s.out, s.bytesWritten, EncodeVarint(size), inner, true);
    return status;
  }

  method EncodeAny(s: OStream, lt: LType, v: PbValue) returns (ok: bool)
    requires TypedValue(lt, v) && ValidType(lt)
    modifies s
    ensures FitsValue(lt, v) ==> s.Wrote(old(s.out), old(s.bytesWritten), EncodeValue(lt, v), ok)
    ensures !FitsValue(lt, v) ==> !ok
    decreases lt, 3
  {
    if lt.Submessage? {
      ok := EncodeSubmessage(s, lt.fields, v.slots);
    } else {
      ok := EncodeScalar(s, lt, v);
    }
  }

  // A tag and a value.
  method EncodeSingle(s: OStream, tag: nat, lt: LType, v: PbValue) returns (ok: bool)
    requires TypedValue(lt, v) && ValidType(lt)
    requires 1 <= tag < 0x2000_0000
    modifies s
    ensures FitsValue(lt, v) ==>
              s.Wrote(old(s.out), old(s.bytesWritten), EncodeTag(WireType(lt), tag) + EncodeValue(lt, v), ok)
    ensures !FitsValue(lt, v) ==> !ok
    decreases lt, 4
  {
    ghost var out0, count0, header := s.out, s.bytesWritten, EncodeTag(WireType(lt), tag);
    ok := WriteNumber(s, tag * 8 + WireType(lt));
    if !ok {
      if FitsValue(lt, v) {
        WroteLess(s.writing, s.maxSize, out0, count0, s.out, s.bytesWritten, header, EncodeValue(lt, v));
      }
      return;
    }
    ghost var out1, count1 := s.out, s.bytesWritten;
    ok := EncodeAny(s, lt, v);
    if FitsValue(lt, v) {
      WroteMore(s.writing, s.maxSize, out0, count0, out1, count1, s.out, s.bytesWritten, header, EncodeValue(lt, v), ok);
    }
  }

  predicate AllFit(lt: LType, items: seq<PbValue>) {
    forall i {:trigger FitsValue(lt, items[i])} :: 0 <= i < |items| ==> FitsValue(lt, items[i])
  }

  predicate AllTyped(lt: LType, items: seq<PbValue>) {
    forall i {:trigger TypedValue(lt, items[i])} :: 0 <= i < |items| ==> TypedValue(lt, items[i])
  }

  lemma NumberSize(lt: LType, v: PbValue)
    requires Packable(lt) && FitsValue(lt, v)
    ensures TypedValue(lt, v)
  {
    match lt
    case Bool => VarintBytes(v.n);
    case Varint(_) =>
      SignedRoundTrip(v.n);
      VarintBytes(Unsigned64(v.n));
    case Uvarint(_) => VarintBytes(v.n);
    case Svarint(_) =>
      ZigZagRoundTrip(v.n);
      VarintBytes(ZigZag(v.n));
    case Fixed32 =>
    case Fixed64 =>
  }

  lemma {:induction false} VarintBytes(v: nat)
    ensures 1 <= |EncodeVarint(v)| <= 1 + v / 128
    decreases v
  {
    MoreVarint(v);
    if v >= 128 {
      VarintBytes(v / 128);
    }
  }

  // The items of a packed array, counted or written.
  method EncodePacked(s: OStream, lt: LType, items: seq<PbValue>) returns (ok: bool)
    requires Packable(lt) && AllFit(lt, items)
    modifies s
    ensures s.Wrote(old(s.out), old(s.bytesWritten), EncodeItems(lt, items, 0), ok)
  {
    ghost var out0, count0, whole := s.out, s.bytesWritten, EncodeItems(lt, items, 0);
    ghost var done: Bytes := [];
    assert [] + whole == whole && out0 + [] == out0;
    var i := 0;
    while i < |items|
      invariant i <= |items| && done + EncodeItems(lt, items, i) == whole
      invariant s.Wrote(out0, count0, done, true)
    {
      ghost var out1, count1 := s.out, s.bytesWritten;
      ghost var one, more := EncodeValue(lt, items[i]), EncodeItems(lt, items, i + 1);
      NumberSize(lt, items[i]);
      ok := EncodeScalar(s, lt, items[i]);
      WroteNext(s.writing, s.maxSize, out0, count0, out1, count1, s.out, s.bytesWritten, done, one, more, whole, ok);
      if !ok {
        return;
      }
      done := done + one;
      i := i + 1;
    }
    assert done + [] == done;
    return true;
  }

  lemma {:induction false} FixedItems(lt: LType, items: seq<PbValue>, k: nat)
    requires Packable(lt) && AllFit(lt, items) && k <= |items|
    ensures lt.Fixed32? ==> |EncodeItems(lt, items, k)| == 4 * (|items| - k)
    ensures lt.Fixed64? ==> |EncodeItems(lt, items, k)| == 8 * (|items| - k)
    decreases |items| - k
  {
    if k < |items| {
      FixedItems(lt, items, k + 1);
    }
  }

  // The total size of a packed array.
  method PackedSize(lt: LType, items: seq<PbValue>) returns (size: nat)
    requires Packable(lt) && AllFit(lt, items)
    ensures size == |EncodeItems(lt, items, 0)|
  {
    FixedItems(lt, items, 0);
    if lt.Fixed32? {
      size := 4 * |items|;
    } else if lt.Fixed64? {
      size := 8 * |items|;
    } else {
      var sizestream := new OStream(false, 0);
      var _ := EncodePacked(sizestream, lt, items);
      size := sizestream.bytesWritten;
    }
  }

  // encode_array, when it packs: the length first, then the items; only the length is
  // needed on a sizing stream.
  method EncodePackedArray(s: OStream, tag: nat, lt: LType, items: seq<PbValue>) returns (ok: bool)
    requires Packable(lt) && AllFit(lt, items) && items != [] && 1 <= tag < 0x2000_0000
    requires |EncodeItems(lt, items, 0)| < TWO64
    modifies s
    ensures s.Wrote(old(s.out), old(s.bytesWritten), EncodeArray(tag, lt, items), ok)
  {
    ghost var out0, count0, packed := s.out, s.bytesWritten, EncodeItems(lt, items, 0);
    var size := PackedSize(lt, items);
    var header := WriteVarint(tag * 8 + 2);
    var length := WriteVarint(size);
    assert header + EncodeString(packed) == header + length + packed;
    ok := WriteBoth(s, header, length);
    if !ok {
      WroteLess(s.writing, s.maxSize, out0, count0, s.out, s.bytesWritten, header + length, packed);
      return;
    }
    ghost var out1, count1 := s.out, s.bytesWritten;
    if !s.writing {
      s.Count(size);
      ok := true;
    } else {
      ok := EncodePacked(s, lt, items);
    }
    WroteMore(s.writing, s.maxSize, out0, count0, out1, count1, s.out, s.bytesWritten, header + length, packed, ok);
  }

  // One item with its tag, after `done` and before `more` of the whole array.
  method EncodeItem(s: OStream, tag: nat, lt: LType, v: PbValue, ghost fits: bool, ghost out0: Bytes, ghost count0: nat,
      ghost done: Bytes, ghost more: Bytes, ghost whole: Bytes)
    returns (ok: bool, ghost next: Bytes)
    requires TypedValue(lt, v) && ValidType(lt) && 1 <= tag < 0x2000_0000
    requires fits ==>
               && FitsValue(lt, v) && done + (EncodeTag(WireType(lt), tag) + EncodeValue(lt, v) + more) == whole
               && s.Wrote(out0, count0, done, true)
    modifies s
    ensures !FitsValue(lt, v) ==> !ok
    ensures fits ==> next + more == whole && s.Wrote(out0, count0, if ok then next else whole, ok)
    decreases lt, 5
  {
    ghost var out1, count1 := s.out, s.bytesWritten;
    next := [];
    ok := EncodeSingle(s, tag, lt, v);
    if fits {
      ghost var one := EncodeTag(WireType(lt), tag) + EncodeValue(lt, v);
      WroteNext(s.writing, s.maxSize, out0, count0, out1, count1, s.out, s.bytesWritten, done, one, more, whole, ok);
      next := done + one;
    }
  }

  // How far a tagged array has got: `done` is written and item i is next. The second form is
  // unfolded only where a proof mentions the first.
  ghost predicate TaggedAt(s: OStream, tag: nat, lt: LType, items: seq<PbValue>, i: nat, out0: Bytes, count0: nat, done: Bytes)
    reads s
  {
    && i <= |items| && (forall j {:trigger FitsValue(lt, items[j])} :: 0 <= j < i ==> FitsValue(lt, items[j]))
    && (AllFit(lt, items) ==>
          done + EncodeTagged(tag, lt, items, i) == EncodeTagged(tag, lt, items, 0) && s.Wrote(out0, count0, done, true))
  }

  ghost predicate TaggedUpTo(s: OStream, tag: nat, lt: LType, items: seq<PbValue>, i: nat, out0: Bytes, count0: nat, done: Bytes)
    reads s
  {
    forall k {:trigger TaggedAt(s, tag, lt, items, k, out0, count0, done)} ::
      k == i ==> TaggedAt(s, tag, lt, items, k, out0, count0, done)
  }

  // How it ends.
  ghost predicate TaggedEnds(s: OStream, tag: nat, lt: LType, items: seq<PbValue>, out0: Bytes, count0: nat, ok: bool)
    reads s
  {
    && (AllFit(lt, items) ==> s.Wrote(out0, count0, EncodeTagged(tag, lt, items, 0), ok))
    && (!AllFit(lt, items) ==> !ok)
  }

  lemma {:induction false} TaggedBegins(s: OStream, tag: nat, lt: LType, items: seq<PbValue>)
    ensures TaggedUpTo(s, tag, lt, items, 0, s.out, s.bytesWritten, [])
  {
    assert AllFit(lt, items) ==> [] + EncodeTagged(tag, lt, items, 0) == EncodeTagged(tag, lt, items, 0);
    assert s.out + [] == s.out;
  }

  lemma {:induction false} TaggedDone(s: OStream, tag: nat, lt: LType, items: seq<PbValue>, out0: Bytes, count0: nat, done: Bytes)
    requires TaggedUpTo(s, tag, lt, items, |items|, out0, count0, done)
    ensures TaggedEnds(s, tag, lt, items, out0, count0, true)
  {
    assert TaggedAt(s, tag, lt, items, |items|, out0, count0, done);
    assert done + [] == done;
  }

  lemma {:induction false} NextItem(tag: nat, lt: LType, items: seq<PbValue>, i: nat)
    requires AllFit(lt, items) && i < |items|
    ensures FitsValue(lt, items[i])
    ensures EncodeTagged(tag, lt, items, i)
         == EncodeTag(WireType(lt), tag) + EncodeValue(lt, items[i]) + EncodeTagged(tag, lt, items, i + 1)
  {
  }

  lemma {:induction false} TaggedNext(s: OStream, tag: nat, lt: LType, items: seq<PbValue>, i: nat, out0: Bytes, count0: nat, next: Bytes)
    requires i < |items| && FitsValue(lt, items[i])
    requires forall j {:trigger FitsValue(lt, items[j])} :: 0 <= j < i ==> FitsValue(lt, items[j])
    requires AllFit(lt, items) ==>
               next + EncodeTagged(tag, lt, items, i + 1) == EncodeTagged(tag, lt, items, 0) && s.Wrote(out0, count0, next, true)
    ensures TaggedUpTo(s, tag, lt, items, i + 1, out0, count0, next)
  {
  }

  // One round of the loop.
  method EncodeTaggedItem(s: OStream, tag: nat, lt: LType, items: seq<PbValue>, i: nat, ghost out0: Bytes, ghost count0: nat,
      ghost done: Bytes)
    returns (ok: bool, ghost next: Bytes)
    requires i < |items| && TypedValue(lt, items[i]) && ValidType(lt) && 1 <= tag < 0x2000_0000
    requires TaggedUpTo(s, tag, lt, items, i, out0, count0, done)
    modifies s
    ensures ok ==> TaggedUpTo(s, tag, lt, items, i + 1, out0, count0, next)
    ensures !ok ==> TaggedEnds(s, tag, lt, items, out0, count0, false)
    decreases lt, 6
  {
    assert TaggedAt(s, tag, lt, items, i, out0, count0, done);
    ghost var fits := AllFit(lt, items);
    ghost var whole := if fits then EncodeTagged(tag, lt, items, 0) else [];
    ghost var more := if fits then EncodeTagged(tag, lt, items, i + 1) else [];
    if fits {
      NextItem(tag, lt, items, i);
    }
    ok, next := EncodeItem(s, tag, lt, items[i], fits, out0, count0, done, more, whole);
    if ok {
      TaggedNext(s, tag, lt, items, i, out0, count0, next);
    }
  }

  // encode_array, when every item carries its tag.
  method EncodeTaggedArray(s: OStream, tag: nat, lt: LType, items: seq<PbValue>) returns (ok: bool)
    requires AllTyped(lt, items) && ValidType(lt) && 1 <= tag < 0x2000_0000
    modifies s
    ensures TaggedEnds(s, tag, lt, items, old(s.out), old(s.bytesWritten), ok)
    decreases lt, 7
  {
    ghost var out0, count0, done := s.out, s.bytesWritten, [];
    TaggedBegins(s, tag, lt, items);
    var i := 0;
    while i < |items|
      invariant i <= |items| && TaggedUpTo(s, tag, lt, items, i, out0, count0, done)
    {
      assert TypedValue(lt, items[i]);
      ok, done := EncodeTaggedItem(s, tag, lt, items, i, out0, count0, done);
      if !ok {
        return;
      }
      i := i + 1;
    }
    TaggedDone(s, tag, lt, items, out0, count0, done);
    return true;
  }

  // encode_basic_field.
  method EncodeField(s: OStream, f: Field, slot: Slot) returns (ok: bool)
    requires TypedSlot(f, slot) && ValidField(f)
    modifies s
    ensures FitsSlot(f, slot) ==> s.Wrote(old(s.out), old(s.bytesWritten), EncodeSlot(f, slot), ok)
    ensures !FitsSlot(f, slot) ==> !ok
    decreases f, 0
  {
    match slot
    case One(v) => ok := EncodeSingle(s, f.tag, f.ltype, v);
    case Maybe(option) =>
      if option.None? {
        assert s.out + [] == s.out;
        return true;
      }
      ok := EncodeSingle(s, f.tag, f.ltype, option.value);
    case Many(items) =>
      if items == [] {
        assert s.out + [] == s.out;
        return true;
      }
      if |items| > f.rule.arraySize {
        // Array max size exceeded.
        return false;
      }
      if Packable(f.ltype) {
        ok := EncodePackedArray(s, f.tag, f.ltype, items);
      } else {
        ok := EncodeTaggedArray(s, f.tag, f.ltype, items);
      }
  }

  // One field, after `done` and before `more` of the whole message.
  method EncodeNextField(s: OStream, f: Field, slot: Slot, ghost fits: bool, ghost out0: Bytes, ghost count0: nat,
      ghost done: Bytes, ghost more: Bytes, ghost whole: Bytes)
    returns (ok: bool, ghost next: Bytes)
    requires TypedSlot(f, slot) && ValidField(f)
    requires fits ==>
               FitsSlot(f, slot) && done + (EncodeSlot(f, slot) + more) == whole && s.Wrote(out0, count0, done, true)
    modifies s
    ensures !FitsSlot(f, slot) ==> !ok
    ensures fits ==> next + more == whole && s.Wrote(out0, count0, if ok then next else whole, ok)
    decreases f, 1
  {
    ghost var out1, count1 := s.out, s.bytesWritten;
    next := [];
    ok := EncodeField(s, f, slot);
    if fits {
      ghost var one := EncodeSlot(f, slot);
      WroteNext(s.writing, s.maxSize, out0, count0, out1, count1, s.out, s.bytesWritten, done, one, more, whole, ok);
      next := done + one;
    }
  }

  // How far a message has got, and how it ends, in the same way.
  ghost predicate FieldsAt(s: OStream, fs: seq<Field>, slots: seq<Slot>, i: nat, out0: Bytes, count0: nat, done: Bytes)
    reads s
  {
    && i <= |fs| == |slots| && (forall j {:trigger FitsSlot(fs[j], slots[j])} :: 0 <= j < i ==> FitsSlot(fs[j], slots[j]))
    && (FitsMessage(fs, slots) ==>
          done + EncodeFrom(fs, slots, i) == EncodeFrom(fs, slots, 0) && s.Wrote(out0, count0, done, true))
  }

  ghost predicate FieldsUpTo(s: OStream, fs: seq<Field>, slots: seq<Slot>, i: nat, out0: Bytes, count0: nat, done: Bytes)
    reads s
  {
    forall k {:trigger FieldsAt(s, fs, slots, k, out0, count0, done)} :: k == i ==> FieldsAt(s, fs, slots, k, out0, count0, done)
  }

  ghost predicate MessageEnds(s: OStream, fs: seq<Field>, slots: seq<Slot>, out0: Bytes, count0: nat, ok: bool)
    reads s
  {
    && (FitsMessage(fs, slots) ==> s.Wrote(out0, count0, EncodeFrom(fs, slots, 0), ok))
    && (!FitsMessage(fs, slots) ==> !ok)
  }

  lemma {:induction false} MessageBegins(s: OStream, fs: seq<Field>, slots: seq<Slot>)
    requires |slots| == |fs|
    ensures FieldsUpTo(s, fs, slots, 0, s.out, s.bytesWritten, [])
  {
    assert FitsMessage(fs, slots) ==> [] + EncodeFrom(fs, slots, 0) == EncodeFrom(fs, slots, 0);
    assert s.out + [] == s.out;
  }

  lemma {:induction false} MessageDone(s: OStream, fs: seq<Field>, slots: seq<Slot>, out0: Bytes, count0: nat, done: Bytes)
    requires FieldsUpTo(s, fs, slots, |fs|, out0, count0, done) && |slots| == |fs| && OneChosen(fs, slots)
    ensures MessageEnds(s, fs, slots, out0, count0, true)
  {
    assert FieldsAt(s, fs, slots, |fs|, out0, count0, done);
    assert done + [] == done;
    forall i | 0 <= i < |fs|
      ensures FitsSlot(fs[i], slots[i])
    {
    }
  }

  lemma {:induction false} NextField(fs: seq<Field>, slots: seq<Slot>, i: nat)
    requires FitsMessage(fs, slots) && i < |fs|
    ensures FitsSlot(fs[i], slots[i])
    ensures EncodeFrom(fs, slots, i) == EncodeSlot(fs[i], slots[i]) + EncodeFrom(fs, slots, i + 1)
  {
  }

  lemma {:induction false} FieldsNext(s: OStream, fs: seq<Field>, slots: seq<Slot>, i: nat, out0: Bytes, count0: nat, next: Bytes)
    requires i < |fs| == |slots| && FitsSlot(fs[i], slots[i])
    requires forall j {:trigger FitsSlot(fs[j], slots[j])} :: 0 <= j < i ==> FitsSlot(fs[j], slots[j])
    requires FitsMessage(fs, slots) ==>
               next + EncodeFrom(fs, slots, i + 1) == EncodeFrom(fs, slots, 0) && s.Wrote(out0, count0, next, true)
    ensures FieldsUpTo(s, fs, slots, i + 1, out0, count0, next)
  {
  }

  // One round of the loop.
  method EncodeFieldAt(s: OStream, fs: seq<Field>, slots: seq<Slot>, i: nat, ghost out0: Bytes, ghost count0: nat, ghost done: Bytes)
    returns (ok: bool, ghost next: Bytes)
    requires i < |fs| == |slots| && TypedSlot(fs[i], slots[i]) && ValidField(fs[i])
    requires FieldsUpTo(s, fs, slots, i, out0, count0, done)
    modifies s
    ensures ok ==> FieldsUpTo(s, fs, slots, i + 1, out0, count0, next)
    ensures !ok ==> MessageEnds(s, fs, slots, out0, count0, false)
    decreases fs, 0
  {
    assert FieldsAt(s, fs, slots, i, out0, count0, done);
    ghost var fits := FitsMessage(fs, slots);
    ghost var whole := if fits then EncodeFrom(fs, slots, 0) else [];
    ghost var more := if fits then EncodeFrom(fs, slots, i + 1) else [];
    if fits {
      NextField(fs, slots, i);
    }
    ok, next := EncodeNextField(s, fs[i], slots[i], fits, out0, count0, done, more, whole);
    if ok {
      FieldsNext(s, fs, slots, i, out0, count0, next);
    }
  }

  // pb_encode.
  method PbEncode(s: OStream, fs: seq<Field>, slots: seq<Slot>) returns (ok: bool)
    requires TypedMessage(fs, slots) && ValidFields(fs)
    modifies s
    ensures MessageEnds(s, fs, slots, old(s.out), old(s.bytesWritten), ok)
    decreases fs, 1
  {
    ghost var out0, count0, done := s.out, s.bytesWritten, [];
    MessageBegins(s, fs, slots);
    var i := 0;
    while i < |fs|
      invariant i <= |fs| && FieldsUpTo(s, fs, slots, i, out0, count0, done)
    {
      assert TypedSlot(fs[i], slots[i]) && ValidField(fs[i]);
      ok, done := EncodeFieldAt(s, fs, slots, i, out0, count0, done);
      if !ok {
        return;
      }
      i := i + 1;
    }
    MessageDone(s, fs, slots, out0, count0, done);
    return true;
  }

  // pb_get_encoded_size: exactly the bytes a writing stream gets.
  method GetEncodedSize(fs: seq<Field>, slots: seq<Slot>) returns (size: Option<nat>)
    requires TypedMessage(fs, slots) && ValidFields(fs)
    ensures size.Some? <==> FitsMessage(fs, slots)
    ensures size.Some? ==> size.value == |Encode(fs, slots)|
  {
    var stream := new OStream(false, 0);
    var ok := PbEncode(stream, fs, slots);
    size := if ok then Some(stream.bytesWritten) else None;
  }
}
