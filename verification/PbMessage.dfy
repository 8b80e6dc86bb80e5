/** nanopb messages (pb_encode.c, pb_decode.c): a schema of field descriptors, a message as a
  record with one slot per descriptor, and the bytes between them as functions. Static
  required, optional, counted repeated and oneof fields, and nested messages. */
module PbMessage {
  import opened Wrappers
  import opened Keys
  import opened Coding
  import opened PbVarint

  datatype Width = W8 | W16 | W32 | W64

  function Half(w: Width): int {
    match w
    case W8 => 0x80
    case W16 => 0x8000
    case W32 => 0x8000_0000
    case W64 => TWO63
  }

  // The length in bytes is data_size; a string buffer has room for its terminator.
  datatype LType =
    | Bool | Varint(width: Width) | Uvarint(width: Width) | Svarint(width: Width) | Fixed32 | Fixed64
    | BytesType(maxSize: nat) | StringType(dataSize: nat) | FixedLengthBytes(size: nat)
    | Submessage(fields: seq<Field>)

  // The fields of a oneof share a union and its which_ tag.
  datatype Rule = Required | Optional | Repeated(arraySize: nat) | Oneof(union: nat)

  datatype Field = Field(tag: nat, rule: Rule, ltype: LType)

  datatype PbValue = Number(n: int) | Data(bytes: Bytes) | Message(slots: seq<Slot>)

  // A oneof slot holds a value just when which_ names its field.
  datatype Slot = One(value: PbValue) | Maybe(option: Option<PbValue>) | Many(items: seq<PbValue>)

  // LTYPE <= LAST_PACKABLE.
  predicate Packable(lt: LType) {
    lt.Bool? || lt.Varint? || lt.Uvarint? || lt.Svarint? || lt.Fixed32? || lt.Fixed64?
  }

  // ---------- what a schema has to be ----------

  predicate ValidType(lt: LType)
    decreases lt
  {
    match lt
    case BytesType(n) => n < TWO32
    case StringType(n) => 0 < n < TWO32
    case FixedLengthBytes(n) => n < TWO32
    case Submessage(fs) => ValidFields(fs)
    case _ => true
  }

  predicate ValidField(f: Field)
    decreases f
  {
    1 <= f.tag < 0x2000_0000 && ValidType(f.ltype)
  }

  predicate ValidFields(fs: seq<Field>)
    decreases fs
  {
    && (forall i :: 0 <= i < |fs| ==> ValidField(fs[i]))
    && (forall i, j :: 0 <= i < j < |fs| ==> fs[i].tag != fs[j].tag)
  }

  // ---------- what a message of a schema has to be ----------

  predicate FitsValue(lt: LType, v: PbValue)
    decreases lt
  {
    match lt
    case Bool => v.Number? && 0 <= v.n <= 1
    case Varint(w) => v.Number? && -Half(w) <= v.n < Half(w)
    case Svarint(w) => v.Number? && -Half(w) <= v.n < Half(w)
    case Uvarint(w) => v.Number? && 0 <= v.n < 2 * Half(w)
    case Fixed32 => v.Number? && 0 <= v.n < TWO32
    case Fixed64 => v.Number? && 0 <= v.n < TWO64
    case BytesType(n) => v.Data? && |v.bytes| <= n
    case StringType(n) => v.Data? && |v.bytes| < n && forall i :: 0 <= i < |v.bytes| ==> v.bytes[i] != 0
    case FixedLengthBytes(n) => v.Data? && |v.bytes| == n
    case Submessage(fs) => v.Message? && FitsMessage(fs, v.slots)
  }

  predicate FitsSlot(f: Field, slot: Slot)
    decreases f
  {
    match f.rule
    case Required => slot.One? && FitsValue(f.ltype, slot.value)
    case Optional => slot.Maybe? && (slot.option.Some? ==> FitsValue(f.ltype, slot.option.value))
    case Oneof(_) => slot.Maybe? && (slot.option.Some? ==> FitsValue(f.ltype, slot.option.value))
    case Repeated(n) =>
      slot.Many? && |slot.items| <= n && forall i :: 0 <= i < |slot.items| ==> FitsValue(f.ltype, slot.items[i])
  }

  // Two fields of one union.
  predicate SameUnion(f: Field, g: Field) {
    f.rule.Oneof? && g.rule.Oneof? && f.rule.union == g.rule.union
  }

  predicate OneChosen(fs: seq<Field>, slots: seq<Slot>)
    requires |slots| == |fs|
  {
    forall i, j :: 0 <= i < j < |fs| && SameUnion(fs[i], fs[j]) && slots[i].Maybe? && slots[j].Maybe? ==>
      slots[i].option.None? || slots[j].option.None?
  }

  predicate FitsMessage(fs: seq<Field>, slots: seq<Slot>)
    decreases fs
  {
    && |slots| == |fs| && (forall i :: 0 <= i < |fs| ==> FitsSlot(fs[i], slots[i]))
    && OneChosen(fs, slots)
  }

  // ---------- encoding ----------

  // The wire types VARINT, 64BIT, STRING and 32BIT.
  function WireType(lt: LType): nat {
    match lt
    case Fixed32 => 5
    case Fixed64 => 1
    case BytesType(_) => 2
    case StringType(_) => 2
    case FixedLengthBytes(_) => 2
    case Submessage(_) => 2
    case _ => 0
  }

  function EncodeTag(wire: nat, tag: nat): Bytes {
    EncodeVarint(tag * 8 + wire)
  }

  // pb_encode_string.
  function EncodeString(b: Bytes): Bytes {
    EncodeVarint(|b|) + b
  }

  function EncodeValue(lt: LType, v: PbValue): Bytes
    requires FitsValue(lt, v)
    decreases lt, 1
  {
    match lt
    case Bool => EncodeVarint(v.n)
    case Varint(_) => EncodeVarint(Unsigned64(v.n))
    case Uvarint(_) => EncodeVarint(v.n)
    case Svarint(_) => EncodeVarint(ZigZag(v.n))
    case Fixed32 => EncodeFixed32(v.n)
    case Fixed64 => EncodeFixed64(v.n)
    case BytesType(_) => EncodeString(v.bytes)
    case StringType(_) => EncodeString(v.bytes)
    case FixedLengthBytes(_) => EncodeString(v.bytes)
    case Submessage(fs) => EncodeString(EncodeFrom(fs, v.slots, 0))
  }

  // The items from k on, one after the other (packed), or each with its tag.
  function EncodeItems(lt: LType, items: seq<PbValue>, k: nat): Bytes
    requires k <= |items| && forall i :: 0 <= i < |items| ==> FitsValue(lt, items[i])
    decreases lt, 2, |items| - k
  {
    if k == |items| then [] else EncodeValue(lt, items[k]) + EncodeItems(lt, items, k + 1)
  }

  function EncodeTagged(tag: nat, lt: LType, items: seq<PbValue>, k: nat): Bytes
    requires k <= |items| && forall i :: 0 <= i < |items| ==> FitsValue(lt, items[i])
    decreases lt, 2, |items| - k
  {
    if k == |items| then []
    else EncodeTag(WireType(lt), tag) + EncodeValue(lt, items[k]) + EncodeTagged(tag, lt, items, k + 1)
  }

  // encode_array.
  function EncodeArray(tag: nat, lt: LType, items: seq<PbValue>): Bytes
    requires forall i :: 0 <= i < |items| ==> FitsValue(lt, items[i])
    decreases lt, 3
  {
    if items == [] then []
    else if Packable(lt) then EncodeTag(2, tag) + EncodeString(EncodeItems(lt, items, 0))
    else EncodeTagged(tag, lt, items, 0)
  }

  // encode_basic_field.
  function EncodeSlot(f: Field, slot: Slot): Bytes
    requires FitsSlot(f, slot)
    decreases f
  {
    match slot
    case One(v) => EncodeTag(WireType(f.ltype), f.tag) + EncodeValue(f.ltype, v)
    case Maybe(option) =>
      if option.None? then [] else EncodeTag(WireType(f.ltype), f.tag) + EncodeValue(f.ltype, option.value)
    case Many(items) => EncodeArray(f.tag, f.ltype, items)
  }

  // pb_encode: the fields from i on.
  function EncodeFrom(fs: seq<Field>, slots: seq<Slot>, i: nat): Bytes
    requires FitsMessage(fs, slots) && i <= |fs|
    decreases fs, |fs| - i
  {
    if i == |fs| then [] else EncodeSlot(fs[i], slots[i]) + EncodeFrom(fs, slots, i + 1)
  }

  function Encode(fs: seq<Field>, slots: seq<Slot>): Bytes
    requires FitsMessage(fs, slots)
  {
    EncodeFrom(fs, slots, 0)
  }

  // ---------- defaults ----------

  // pb_message_set_to_defaults; a repeated or oneof field is only marked empty.
  function DefaultValue(lt: LType): PbValue
    decreases lt
  {
    match lt
    case Submessage(fs) => Message(Defaults(fs))
    case BytesType(_) => Data([])
    case StringType(_) => Data([])
    case FixedLengthBytes(n) => Data(seq(n, i => 0))
    case _ => Number(0)
  }

  function DefaultSlot(f: Field): Slot
    decreases f
  {
    match f.rule
    case Required => One(DefaultValue(f.ltype))
    case Optional => Maybe(None)
    case Oneof(_) => Maybe(None)
    case Repeated(_) => Many([])
  }

  function Defaults(fs: seq<Field>): (slots: seq<Slot>)
    ensures |slots| == |fs|
    decreases fs
  {
    seq(|fs|, i requires 0 <= i < |fs| => DefaultSlot(fs[i]))
  }
}
