/** Decoding what was encoded gives the message back, for every valid schema and every
  message that fits it. */
module PbRoundTrip {
  import opened Wrappers
  import opened Keys
  import opened Coding
  import opened PbVarint
  import opened PbMessage
  import opened PbDecoding

  lemma {:induction false} StringRoundTrip(b: Bytes, rest: Bytes)
    requires |b| < TWO32
    ensures DecodeString(EncodeString(b) + rest) == Some(Decoded(b, rest))
    ensures DecodeVarint32(EncodeString(b) + rest) == Some(Decoded(|b|, b + rest))
    ensures Read(b + rest, |b|) == Some(Decoded(b, rest))
  {
    assert EncodeString(b) + rest == EncodeVarint(|b|) + (b + rest);
    PbVarint32RoundTrip(|b|, b + rest);
  }

  lemma {:induction false} FixedRoundTrip(n: nat, rest: Bytes)
    ensures n < TWO32 ==> DecodeFixed32(EncodeFixed32(n) + rest) == n && (EncodeFixed32(n) + rest)[4..] == rest
    ensures n < TWO64 ==> DecodeFixed64(EncodeFixed64(n) + rest) == n && (EncodeFixed64(n) + rest)[8..] == rest
  {
    if n < TWO32 {
      Fixed32RoundTrip(n, rest);
    }
    if n < TWO64 {
      Fixed64RoundTrip(n, rest);
    }
  }

  lemma {:induction false} VarintRoundTrip(lt: LType, v: PbValue, rest: Bytes, current: PbValue)
    requires (lt.Varint? || lt.Uvarint?) && FitsValue(lt, v)
    ensures DecodeValue(lt, EncodeValue(lt, v) + rest, current) == Some(Decoded(v, rest))
  {
    if lt.Varint? {
      SignedRoundTrip(v.n);
      Varint64RoundTrip(Unsigned64(v.n), rest);
    } else {
      Varint64RoundTrip(v.n, rest);
    }
  }

  lemma {:induction false} SvarintRoundTrip(lt: LType, v: PbValue, rest: Bytes, current: PbValue)
    requires lt.Svarint? && FitsValue(lt, v)
    ensures DecodeValue(lt, EncodeValue(lt, v) + rest, current) == Some(Decoded(v, rest))
  {
    ZigZagRoundTrip(v.n);
    Varint64RoundTrip(ZigZag(v.n), rest);
  }

  lemma {:induction false} NumberRoundTrip(lt: LType, v: PbValue, rest: Bytes, current: PbValue)
    requires Packable(lt) && FitsValue(lt, v)
    ensures DecodeValue(lt, EncodeValue(lt, v) + rest, current) == Some(Decoded(v, rest))
  {
    match lt
    case Bool => PbVarint32RoundTrip(v.n, rest);
    case Varint(_) => VarintRoundTrip(lt, v, rest, current);
    case Uvarint(_) => VarintRoundTrip(lt, v, rest, current);
    case Svarint(_) => SvarintRoundTrip(lt, v, rest, current);
    case Fixed32 => FixedRoundTrip(v.n, rest);
    case Fixed64 => FixedRoundTrip(v.n, rest);
  }

  lemma {:induction false} DataRoundTrip(lt: LType, v: PbValue, rest: Bytes, current: PbValue)
    requires lt.BytesType? || lt.StringType? || lt.FixedLengthBytes?
    requires ValidType(lt) && FitsValue(lt, v)
    ensures DecodeValue(lt, EncodeValue(lt, v) + rest, current) == Some(Decoded(v, rest))
  {
    StringRoundTrip(v.bytes, rest);
    assert BeforeZero(v.bytes) == v.bytes || exists i :: 0 <= i < |v.bytes| && v.bytes[i] == 0;
    if lt.FixedLengthBytes? && lt.size == 0 {
      assert v.bytes == seq(0, i => 0);
      assert [] + rest == rest;
    }
  }

  // ---------- one field ----------

  lemma {:induction false} TagRoundTrip(wire: nat, tag: nat, rest: Bytes)
    requires wire < 8 && 1 <= tag < 0x2000_0000
    ensures DecodeVarint32(EncodeTag(wire, tag) + rest) == Some(Decoded(tag * 8 + wire, rest))
    ensures tag * 8 + wire != 0 && (tag * 8 + wire) / 8 == tag && (tag * 8 + wire) % 8 == wire
  {
    PbVarint32RoundTrip(tag * 8 + wire, rest);
  }

  lemma {:induction false} FindsField(fs: seq<Field>, i: nat)
    requires i < |fs| && forall j, k :: 0 <= j < k < |fs| ==> fs[j].tag != fs[k].tag
    ensures Find(fs, fs[i].tag) == Some(i)
  {
    if i < |fs| - 1 {
      FindsField(fs[..|fs| - 1], i);
    }
  }

  // Once around the decoding loop.
  lemma {:induction false} LoopStep(fs: seq<Field>, i: nat, wire: nat, body: Bytes, slots: seq<Slot>, next: seq<Slot>, rest: Bytes,
      seen: set<nat>)
    requires ValidFields(fs) && i < |fs| == |slots| == |next| && wire < 8
    requires DecodeField(fs, i, wire, body + rest, slots) == Some(Decoded(next, rest))
    ensures DecodeLoop(fs, EncodeTag(wire, fs[i].tag) + body + rest, slots, seen)
         == DecodeLoop(fs, rest, next, Saw(fs, i, seen))
  {
    assert ValidField(fs[i]);
    var input := EncodeTag(wire, fs[i].tag) + body + rest;
    assert input == EncodeTag(wire, fs[i].tag) + (body + rest);
    TagRoundTrip(wire, fs[i].tag, body + rest);
    FindsField(fs, i);
    assert input != [];
  }

  // The slots once the first i fields have been decoded.
  ghost predicate DecodedFirst(fs: seq<Field>, slots: seq<Slot>, i: nat, current: seq<Slot>) {
    && |slots| == |fs| == |current|
    && (forall j :: 0 <= j < i && j < |fs| ==> current[j] == slots[j])
    && (forall j :: i <= j < |fs| ==> current[j] == DefaultSlot(fs[j]))
  }

  // Setting slot i takes nothing from the slots before or after it.
  lemma {:induction false} ChooseKeepsOthers(fs: seq<Field>, slots: seq<Slot>, i: nat, current: seq<Slot>)
    requires FitsMessage(fs, slots) && i < |fs| && DecodedFirst(fs, slots, i, current)
    requires fs[i].rule.Oneof? && slots[i].Maybe? && slots[i].option.Some?
    ensures Choose(fs, current, i, slots[i].option.value) == current[i := slots[i]]
  {
    var v := slots[i].option.value;
    forall j | 0 <= j < |fs|
      ensures Choose(fs, current, i, v)[j] == current[i := slots[i]][j]
    {
      if j != i && SameUnion(fs[i], fs[j]) {
        assert FitsSlot(fs[j], slots[j]) && FitsSlot(fs[i], slots[i]);
        assert SameUnion(fs[j], fs[i]);
      }
    }
  }

  lemma {:induction false} MovesOn(fs: seq<Field>, slots: seq<Slot>, i: nat, current: seq<Slot>)
    requires i < |fs| && DecodedFirst(fs, slots, i, current)
    ensures DecodedFirst(fs, slots, i + 1, current[i := slots[i]])
    ensures slots[i] == DefaultSlot(fs[i]) ==> current[i := slots[i]] == current
  {
  }

  // ---------- lengths ----------

  // The length of a nested message is read as 32 bits.
  predicate NestedFits(lt: LType, v: PbValue)
    requires FitsValue(lt, v)
  {
    lt.Submessage? ==> |EncodeFrom(lt.fields, v.slots, 0)| < TWO32
  }

  predicate PartFits(f: Field, slot: Slot)
    requires FitsSlot(f, slot)
  {
    match slot
    case One(v) => NestedFits(f.ltype, v)
    case Maybe(option) => option.Some? ==> NestedFits(f.ltype, option.value)
    case Many(items) =>
      if Packable(f.ltype) then |EncodeItems(f.ltype, items, 0)| < TWO32
      else forall i :: 0 <= i < |items| ==> NestedFits(f.ltype, items[i])
  }

  // Every part of the message that is written with its length. The message itself is not.
  predicate PartsFit(fs: seq<Field>, slots: seq<Slot>)
    requires FitsMessage(fs, slots)
  {
    forall i :: 0 <= i < |fs| ==> PartFits(fs[i], slots[i])
  }

  lemma {:induction false} ItemOfSmall(tag: nat, lt: LType, items: seq<PbValue>, k: nat, j: nat)
    requires k <= j < |items| && forall i :: 0 <= i < |items| ==> FitsValue(lt, items[i])
    ensures |EncodeValue(lt, items[j])| <= |EncodeTagged(tag, lt, items, k)|
    decreases j - k
  {
    if k < j {
      ItemOfSmall(tag, lt, items, k + 1, j);
    }
  }

  lemma {:induction false} ValueOfSmall(lt: LType, v: PbValue)
    requires FitsValue(lt, v) && |EncodeValue(lt, v)| < TWO32
    ensures NestedFits(lt, v)
  {
  }

  lemma {:induction false} PartOfSmall(f: Field, slot: Slot)
    requires FitsSlot(f, slot) && |EncodeSlot(f, slot)| < TWO32
    ensures PartFits(f, slot)
  {
    match slot
    case One(v) => ValueOfSmall(f.ltype, v);
    case Maybe(option) =>
      if option.Some? {
        ValueOfSmall(f.ltype, option.value);
      }
    case Many(items) =>
      if !Packable(f.ltype) {
        forall i | 0 <= i < |items|
          ensures NestedFits(f.ltype, items[i])
        {
          ItemOfSmall(f.tag, f.ltype, items, 0, i);
          ValueOfSmall(f.ltype, items[i]);
        }
      }
  }

  // Within 32 bits in all, every part fits.
  lemma {:induction false} PartsOfSmall(fs: seq<Field>, slots: seq<Slot>, i: nat)
    requires FitsMessage(fs, slots) && i <= |fs| && |EncodeFrom(fs, slots, i)| < TWO32
    ensures forall j :: i <= j < |fs| ==> PartFits(fs[j], slots[j])
    decreases |fs| - i
  {
    if i < |fs| {
      assert FitsSlot(fs[i], slots[i]);
      PartOfSmall(fs[i], slots[i]);
      PartsOfSmall(fs, slots, i + 1);
    }
  }

  // ---------- the recursion over the schema ----------

  lemma {:induction false} ValueRoundTrip(lt: LType, v: PbValue, rest: Bytes)
    requires ValidType(lt) && FitsValue(lt, v) && NestedFits(lt, v)
    ensures DecodeValue(lt, EncodeValue(lt, v) + rest, DefaultValue(lt)) == Some(Decoded(v, rest))
    decreases lt, 1
  {
    match lt
    case Submessage(fs) =>
      var inner := EncodeFrom(fs, v.slots, 0);
      StringRoundTrip(inner, rest);
      PartsOfSmall(fs, v.slots, 0);
      MessageRoundTrip(fs, v.slots);
    case BytesType(_) => DataRoundTrip(lt, v, rest, DefaultValue(lt));
    case StringType(_) => DataRoundTrip(lt, v, rest, DefaultValue(lt));
    case FixedLengthBytes(_) => DataRoundTrip(lt, v, rest, DefaultValue(lt));
    case _ => NumberRoundTrip(lt, v, rest, DefaultValue(lt));
  }

  lemma {:induction false} ItemStep(lt: LType, one: Bytes, v: PbValue, rest: Bytes, items: seq<PbValue>, arraySize: nat)
    requires one != [] && DecodeValue(lt, one + rest, DefaultValue(lt)) == Some(Decoded(v, rest)) && |items| < arraySize
    ensures DecodeItems(lt, one + rest, items, arraySize) == DecodeItems(lt, rest, items + [v], arraySize)
  {
  }

  lemma {:induction false} NextOfItems(lt: LType, items: seq<PbValue>, k: nat, bytes: Bytes, one: Bytes, rest: Bytes)
    requires k < |items| && forall i :: 0 <= i < |items| ==> FitsValue(lt, items[i])
    requires bytes == EncodeItems(lt, items, k) && one == EncodeValue(lt, items[k]) && rest == EncodeItems(lt, items, k + 1)
    ensures bytes == one + rest && one != []
  {
    NotEmpty(lt, items[k]);
  }

  lemma {:induction false} ItemsRoundTrip(lt: LType, items: seq<PbValue>, k: nat, done: seq<PbValue>, arraySize: nat)
    requires Packable(lt) && k <= |items| <= arraySize && forall i :: 0 <= i < |items| ==> FitsValue(lt, items[i])
    requires done == items[..k]
    ensures DecodeItems(lt, EncodeItems(lt, items, k), done, arraySize) == Some(items)
    decreases |items| - k
  {
    if k == |items| {
      assert items[..k] == items;
    } else {
      var one, rest := EncodeValue(lt, items[k]), EncodeItems(lt, items, k + 1);
      NextOfItems(lt, items, k, EncodeItems(lt, items, k), one, rest);
      NumberRoundTrip(lt, items[k], rest, DefaultValue(lt));
      ItemStep(lt, one, items[k], rest, done, arraySize);
      ItemsRoundTrip(lt, items, k + 1, done + [items[k]], arraySize);
    }
  }

  lemma {:induction false} NotEmpty(lt: LType, v: PbValue)
    requires FitsValue(lt, v)
    ensures EncodeValue(lt, v) != []
  {
  }

  // One more item of an array that is not packed.
  lemma {:induction false} TaggedField(fs: seq<Field>, i: nat, items: seq<PbValue>, k: nat, current: seq<Slot>, body: Bytes, rest: Bytes)
    requires i < |fs| == |current| && fs[i].rule.Repeated? && !Packable(fs[i].ltype)
    requires k < |items| <= fs[i].rule.arraySize && current[i] == Many(items[..k])
    requires DecodeValue(fs[i].ltype, body + rest, DefaultValue(fs[i].ltype)) == Some(Decoded(items[k], rest))
    ensures DecodeField(fs, i, WireType(fs[i].ltype), body + rest, current)
         == Some(Decoded(current[i := Many(items[..k + 1])], rest))
  {
    assert items[..k] + [items[k]] == items[..k + 1];
  }

  lemma {:induction false} TaggedStep(fs: seq<Field>, i: nat, items: seq<PbValue>, k: nat, current: seq<Slot>, body: Bytes, rest: Bytes,
      seen: set<nat>)
    requires ValidFields(fs) && i < |fs| == |current| && fs[i].rule.Repeated? && !Packable(fs[i].ltype)
    requires k < |items| <= fs[i].rule.arraySize && current[i] == Many(items[..k])
    requires DecodeValue(fs[i].ltype, body + rest, DefaultValue(fs[i].ltype)) == Some(Decoded(items[k], rest))
    ensures DecodeLoop(fs, EncodeTag(WireType(fs[i].ltype), fs[i].tag) + body + rest, current, seen)
         == DecodeLoop(fs, rest, current[i := Many(items[..k + 1])], seen)
  {
    TaggedField(fs, i, items, k, current, body, rest);
    LoopStep(fs, i, WireType(fs[i].ltype), body, current, current[i := Many(items[..k + 1])], rest, seen);
  }

  lemma {:induction false} Regroup(a: Bytes, b: Bytes, c: Bytes, d: Bytes)
    ensures a + b + c + d == a + b + (c + d)
  {
  }

  lemma {:induction false} TaggedRoundTrip(fs: seq<Field>, i: nat, items: seq<PbValue>, k: nat, current: seq<Slot>,
      rest: Bytes, seen: set<nat>)
    requires ValidFields(fs) && i < |fs| == |current| && fs[i].rule.Repeated? && !Packable(fs[i].ltype)
    requires k <= |items| <= fs[i].rule.arraySize && forall j :: 0 <= j < |items| ==> FitsValue(fs[i].ltype, items[j])
    requires current[i] == Many(items[..k])
    requires forall j :: 0 <= j < |items| ==> NestedFits(fs[i].ltype, items[j])
    ensures DecodeLoop(fs, EncodeTagged(fs[i].tag, fs[i].ltype, items, k) + rest, current, seen)
         == DecodeLoop(fs, rest, current[i := Many(items)], seen)
    decreases fs[i], 0, |items| - k
  {
    var lt := fs[i].ltype;
    if k == |items| {
      assert items[..k] == items;
      assert [] + rest == rest;
      assert current[i := Many(items)] == current;
    } else {
      assert ValidField(fs[i]);
      var body := EncodeValue(lt, items[k]);
      var more := EncodeTagged(fs[i].tag, lt, items, k + 1);
      Regroup(EncodeTag(WireType(lt), fs[i].tag), body, more, rest);
      ValueRoundTrip(lt, items[k], more + rest);
      TaggedStep(fs, i, items, k, current, body, more + rest, seen);
      TaggedRoundTrip(fs, i, items, k + 1, current[i := Many(items[..k + 1])], rest, seen);
      assert current[i := Many(items[..k + 1])][i := Many(items)] == current[i := Many(items)];
    }
  }

  // ---------- the fields of a message ----------

  // The bytes of field i take the slots one field further.
  lemma {:induction false} SlotRoundTrip(fs: seq<Field>, slots: seq<Slot>, i: nat, current: seq<Slot>, rest: Bytes, seen: set<nat>)
    requires ValidFields(fs) && FitsMessage(fs, slots) && i < |fs| && DecodedFirst(fs, slots, i, current)
    requires PartFits(fs[i], slots[i])
    ensures DecodeLoop(fs, EncodeSlot(fs[i], slots[i]) + rest, current, seen)
         == DecodeLoop(fs, rest, current[i := slots[i]], Saw(fs, i, seen))
    decreases fs[i], 1, 0
  {
    var f := fs[i];
    assert ValidField(f) && FitsSlot(f, slots[i]);
    MovesOn(fs, slots, i, current);
    match slots[i]
    case One(v) => SingleRoundTrip(fs, i, v, current, current[i := slots[i]], rest, seen);
    case Maybe(option) =>
      if option.None? {
        assert [] + rest == rest;
      } else {
        if f.rule.Oneof? {
          ChooseKeepsOthers(fs, slots, i, current);
        }
        SingleRoundTrip(fs, i, option.value, current, current[i := slots[i]], rest, seen);
      }
    case Many(items) =>
      if items == [] {
        assert [] + rest == rest;
      } else if Packable(f.ltype) {
        PackedRoundTrip(fs, i, items, current, rest, seen);
      } else {
        assert items[..0] == [];
        TaggedRoundTrip(fs, i, items, 0, current, rest, seen);
      }
  }

  // A required, optional or oneof field that is there.
  lemma {:induction false} SingleRoundTrip(fs: seq<Field>, i: nat, v: PbValue, current: seq<Slot>, next: seq<Slot>, rest: Bytes,
      seen: set<nat>)
    requires ValidFields(fs) && i < |fs| == |current| == |next| && !fs[i].rule.Repeated? && FitsValue(fs[i].ltype, v)
    requires current[i] == DefaultSlot(fs[i])
    requires next == match fs[i].rule
                     case Required => current[i := One(v)]
                     case Optional => current[i := Maybe(Some(v))]
                     case Oneof(_) => Choose(fs, current, i, v)
    requires NestedFits(fs[i].ltype, v)
    ensures DecodeLoop(fs, EncodeTag(WireType(fs[i].ltype), fs[i].tag) + EncodeValue(fs[i].ltype, v) + rest, current, seen)
         == DecodeLoop(fs, rest, next, Saw(fs, i, seen))
    decreases fs[i], 0, 0
  {
    assert ValidField(fs[i]);
    var body := EncodeValue(fs[i].ltype, v);
    ValueRoundTrip(fs[i].ltype, v, rest);
    LoopStep(fs, i, WireType(fs[i].ltype), body, current, next, rest, seen);
  }

  lemma {:induction false} PackedRoundTrip(fs: seq<Field>, i: nat, items: seq<PbValue>, current: seq<Slot>, rest: Bytes, seen: set<nat>)
    requires ValidFields(fs) && i < |fs| == |current| && fs[i].rule.Repeated? && Packable(fs[i].ltype)
    requires |items| <= fs[i].rule.arraySize && forall j :: 0 <= j < |items| ==> FitsValue(fs[i].ltype, items[j])
    requires current[i] == Many([])
    requires |EncodeItems(fs[i].ltype, items, 0)| < TWO32
    ensures DecodeLoop(fs, EncodeTag(2, fs[i].tag) + EncodeString(EncodeItems(fs[i].ltype, items, 0)) + rest, current, seen)
         == DecodeLoop(fs, rest, current[i := Many(items)], seen)
  {
    var packed := EncodeItems(fs[i].ltype, items, 0);
    StringRoundTrip(packed, rest);
    assert items[..0] == [];
    ItemsRoundTrip(fs[i].ltype, items, 0, [], fs[i].rule.arraySize);
    LoopStep(fs, i, 2, EncodeString(packed), current, current[i := Many(items)], rest, seen);
  }

  // The required fields before field i, as far as they are tracked.
  ghost predicate SeenFirst(fs: seq<Field>, i: nat, seen: set<nat>)
    requires i <= |fs|
  {
    forall k :: 0 <= k < RequiredBefore(fs, i) && k < MAX_REQUIRED_FIELDS ==> k in seen
  }

  lemma {:induction false} SeenMore(fs: seq<Field>, i: nat, seen: set<nat>)
    requires i < |fs| && SeenFirst(fs, i, seen)
    ensures SeenFirst(fs, i + 1, Saw(fs, i, seen))
  {
  }

  lemma {:induction false} LoopRoundTrip(fs: seq<Field>, slots: seq<Slot>, i: nat, current: seq<Slot>, seen: set<nat>)
    returns (all: set<nat>)
    requires ValidFields(fs) && FitsMessage(fs, slots) && i <= |fs| && DecodedFirst(fs, slots, i, current)
    requires SeenFirst(fs, i, seen) && PartsFit(fs, slots)
    ensures DecodeLoop(fs, EncodeFrom(fs, slots, i), current, seen) == Some((slots, all))
    ensures SeenFirst(fs, |fs|, all)
    decreases fs, 0, |fs| - i
  {
    if i == |fs| {
      assert current == slots;
      all := seen;
    } else {
      var rest := EncodeFrom(fs, slots, i + 1);
      MovesOn(fs, slots, i, current);
      SeenMore(fs, i, seen);
      SlotRoundTrip(fs, slots, i, current, rest, seen);
      all := LoopRoundTrip(fs, slots, i + 1, current[i := slots[i]], Saw(fs, i, seen));
    }
  }

  lemma {:induction false} MessageRoundTrip(fs: seq<Field>, slots: seq<Slot>)
    requires ValidFields(fs) && FitsMessage(fs, slots) && PartsFit(fs, slots)
    ensures DecodeNoinit(fs, EncodeFrom(fs, slots, 0), Defaults(fs)) == Some(slots)
    decreases fs, 1
  {
    var all := LoopRoundTrip(fs, slots, 0, Defaults(fs), {});
  }

  // pb_decode of what pb_encode wrote is the message, up to the contents of absent fields.
  lemma {:induction false} EncodeDecode(fs: seq<Field>, slots: seq<Slot>)
    requires ValidFields(fs) && FitsMessage(fs, slots) && PartsFit(fs, slots)
    ensures Decode(fs, Encode(fs, slots)) == Some(slots)
  {
    MessageRoundTrip(fs, slots);
  }
}
