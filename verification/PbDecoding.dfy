/** Decoding nanopb messages (pb_decode.c), as a function of the bytes. None is an error
  return; what a failed call leaves in the destination is not described. */
module PbDecoding {
  import opened Wrappers
  import opened Keys
  import opened Coding
  import opened PbVarint
  import opened PbMessage

  const MAX_REQUIRED_FIELDS := 64

  // pb_read.
  function Read(input: Bytes, n: nat): (r: Option<Decoded<Bytes>>)
    ensures r.Some? ==> |r.value.rest| + n == |input|
  {
    if |input| < n then None else Some(Decoded(input[..n], input[n..]))
  }

  // A length and that many bytes: pb_make_string_substream.
  function DecodeString(input: Bytes): (r: Option<Decoded<Bytes>>)
    ensures r.Some? ==> |r.value.rest| < |input|
  {
    match DecodeVarint32(input)
    case None => None
    case Some(size) => Read(size.rest, size.value)
  }

  function InRange(n: int, lo: int, hi: int, rest: Bytes): (r: Option<Decoded<PbValue>>)
    ensures r.Some? ==> r.value.rest == rest
  {
    if lo <= n < hi then Some(Decoded(Number(n), rest)) else None
  }

  function SkipVarint(input: Bytes): (r: Option<Bytes>)
    ensures r.Some? ==> |r.value| < |input|
  {
    if input == [] then None else if input[0] >= 128 then SkipVarint(input[1..]) else Some(input[1..])
  }

  // pb_skip_field.
  function SkipField(wire: nat, input: Bytes): (r: Option<Bytes>)
    ensures r.Some? ==> |r.value| <= |input|
  {
    if wire == 0 then SkipVarint(input)
    else if wire == 1 then (if |input| < 8 then None else Some(input[8..]))
    else if wire == 2 then
      match DecodeString(input)
      case None => None
      case Some(d) => Some(d.rest)
    else if wire == 5 then (if |input| < 4 then None else Some(input[4..]))
    else None
  }

  // pb_field_iter_find. Tags are distinct, so where the search starts does not matter.
  function Find(fs: seq<Field>, tag: nat): (r: Option<nat>)
    ensures r.Some? ==> r.value < |fs| && fs[r.value].tag == tag
    ensures r.None? ==> forall i :: 0 <= i < |fs| ==> fs[i].tag != tag
  {
    if fs == [] then None
    else if fs[|fs| - 1].tag == tag then Some(|fs| - 1)
    else Find(fs[..|fs| - 1], tag)
  }

  // required_field_index: the required fields before field i.
  function RequiredBefore(fs: seq<Field>, i: nat): (n: nat)
    requires i <= |fs|
    ensures n <= i
  {
    if i == 0 then 0 else RequiredBefore(fs, i - 1) + if fs[i - 1].rule.Required? then 1 else 0
  }

  // Every required field, of the first 64, was seen.
  predicate RequiredOk(fs: seq<Field>, seen: set<nat>) {
    forall k :: 0 <= k < RequiredBefore(fs, |fs|) && k < MAX_REQUIRED_FIELDS ==> k in seen
  }

  // What a field has to start from: the value it has, or the default.
  function Current(f: Field, slot: Slot): PbValue {
    match slot
    case One(v) => v
    case Maybe(option) => if option.Some? then option.value else DefaultValue(f.ltype)
    case Many(_) => DefaultValue(f.ltype)
  }

  function ItemsOf(slot: Slot): seq<PbValue> {
    if slot.Many? then slot.items else []
  }

  function SlotsOf(fs: seq<Field>, v: PbValue): (slots: seq<Slot>)
    ensures |slots| == |fs|
  {
    if v.Message? && |v.slots| == |fs| then v.slots else Defaults(fs)
  }

  // Setting which_ to field i takes the union from the others.
  function Choose(fs: seq<Field>, slots: seq<Slot>, i: nat, v: PbValue): (r: seq<Slot>)
    requires |slots| == |fs| && i < |fs|
    ensures |r| == |fs|
  {
    seq(|fs|, j requires 0 <= j < |fs| =>
      if j == i then Maybe(Some(v)) else if SameUnion(fs[i], fs[j]) then Maybe(None) else slots[j])
  }

  // The field decoders. A message is decoded into what `current` holds.
  function DecodeValue(lt: LType, input: Bytes, current: PbValue): (r: Option<Decoded<PbValue>>)
    ensures r.Some? ==> |r.value.rest| < |input|
    decreases lt, 0, |input|
  {
    match lt
    case Bool =>
      (match DecodeVarint32(input)
       case None => None
       case Some(d) => Some(Decoded(Number(if d.value != 0 then 1 else 0), d.rest)))
    case Varint(w) =>
      (match DecodeVarint64(input)
       case None => None
       case Some(d) => InRange(if w.W64? then Signed64(d.value) else Signed32(d.value), -Half(w), Half(w), d.rest))
    case Uvarint(w) =>
      (match DecodeVarint64(input)
       case None => None
       case Some(d) => InRange(d.value, 0, 2 * Half(w), d.rest))
    case Svarint(w) =>
      (match DecodeVarint64(input)
       case None => None
       case Some(d) => InRange(UnZigZag(d.value), -Half(w), Half(w), d.rest))
    case Fixed32 =>
      if |input| < 4 then None else Some(Decoded(Number(DecodeFixed32(input)), input[4..]))
    case Fixed64 =>
      if |input| < 8 then None else Some(Decoded(Number(DecodeFixed64(input)), input[8..]))
    case BytesType(n) =>
      (match DecodeVarint32(input)
       case None => None
       case Some(size) => if size.value > n then None else DataOf(Read(size.rest, size.value)))
    case StringType(n) =>
      (match DecodeVarint32(input)
       case None => None
       case Some(size) => if size.value + 1 > n then None else StringOf(Read(size.rest, size.value)))
    case FixedLengthBytes(n) =>
      (match DecodeVarint32(input)
       case None => None
       case Some(size) =>
         if size.value == 0 then Some(Decoded(Data(seq(n, i => 0)), size.rest))
         else if size.value != n then None
         else DataOf(Read(size.rest, n)))
    case Submessage(fs) =>
      (match DecodeString(input)
       case None => None
       case Some(sub) =>
         match DecodeNoinit(fs, sub.value, SlotsOf(fs, current))
         case None => None
         case Some(slots) => Some(Decoded(Message(slots), sub.rest)))
  }

  function DataOf(d: Option<Decoded<Bytes>>): (r: Option<Decoded<PbValue>>)
    ensures r.Some? <==> d.Some?
    ensures r.Some? ==> r.value == Decoded(Data(d.value.value), d.value.rest)
  {
    if d.None? then None else Some(Decoded(Data(d.value.value), d.value.rest))
  }

  // A string in memory ends at its first zero byte.
  function BeforeZero(b: Bytes): (r: Bytes)
    ensures r <= b && (forall i :: 0 <= i < |r| ==> r[i] != 0) && (|r| < |b| ==> b[|r|] == 0)
  {
    if b == [] || b[0] == 0 then [] else [b[0]] + BeforeZero(b[1..])
  }

  function StringOf(d: Option<Decoded<Bytes>>): (r: Option<Decoded<PbValue>>)
    ensures r.Some? <==> d.Some?
    ensures r.Some? ==> r.value == Decoded(Data(BeforeZero(d.value.value)), d.value.rest)
  {
    if d.None? then None else Some(Decoded(Data(BeforeZero(d.value.value)), d.value.rest))
  }

  // A packed array.
  function DecodeItems(lt: LType, sub: Bytes, items: seq<PbValue>, arraySize: nat): Option<seq<PbValue>>
    decreases lt, 1, |sub|
  {
    if sub == [] then Some(items)
    else if |items| >= arraySize then None
    else
      match DecodeValue(lt, sub, DefaultValue(lt))
      case None => None
      case Some(d) => DecodeItems(lt, d.rest, items + [d.value], arraySize)
  }

  // decode_static_field.
  function DecodeField(fs: seq<Field>, i: nat, wire: nat, input: Bytes, slots: seq<Slot>)
    : (r: Option<Decoded<seq<Slot>>>)
    requires i < |fs| == |slots|
    ensures r.Some? ==> |r.value.value| == |fs| && |r.value.rest| < |input|
    decreases fs[i], 0, |input|
  {
    var f := fs[i];
    match f.rule
    case Required =>
      (match DecodeValue(f.ltype, input, Current(f, slots[i]))
       case None => None
       case Some(d) => Some(Decoded(slots[i := One(d.value)], d.rest)))
    case Optional =>
      (match DecodeValue(f.ltype, input, Current(f, slots[i]))
       case None => None
       case Some(d) => Some(Decoded(slots[i := Maybe(Some(d.value))], d.rest)))
    case Oneof(_) =>
      (match DecodeValue(f.ltype, input, Current(f, slots[i]))
       case None => None
       case Some(d) => Some(Decoded(Choose(fs, slots, i, d.value), d.rest)))
    case Repeated(n) =>
      if wire == 2 && Packable(f.ltype) then
        match DecodeString(input)
        case None => None
        case Some(sub) =>
          match DecodeItems(f.ltype, sub.value, ItemsOf(slots[i]), n)
          case None => None
          case Some(items) => Some(Decoded(slots[i := Many(items)], sub.rest))
      else if |ItemsOf(slots[i])| >= n then None
      else
        match DecodeValue(f.ltype, input, DefaultValue(f.ltype))
        case None => None
        case Some(d) => Some(Decoded(slots[i := Many(ItemsOf(slots[i]) + [d.value])], d.rest))
  }

  function Saw(fs: seq<Field>, i: nat, seen: set<nat>): set<nat>
    requires i < |fs|
  {
    if fs[i].rule.Required? && RequiredBefore(fs, i) < MAX_REQUIRED_FIELDS then seen + {RequiredBefore(fs, i)} else seen
  }

  // The loop of pb_decode_noinit. A zero tag ends the message; unknown fields are skipped.
  function DecodeLoop(fs: seq<Field>, input: Bytes, slots: seq<Slot>, seen: set<nat>)
    : (r: Option<(seq<Slot>, set<nat>)>)
    requires |slots| == |fs|
    ensures r.Some? ==> |r.value.0| == |fs|
    decreases fs, 1, |input|
  {
    if input == [] then Some((slots, seen))
    else
      match DecodeVarint32(input)
      case None => None
      case Some(d) =>
        if d.value == 0 then Some((slots, seen))
        else if fs == [] && d.value / 8 == 0 then
          // In an empty array of fields the terminator is found, and read like a bool.
          match DecodeVarint32(d.rest)
          case None => None
          case Some(b) => DecodeLoop(fs, b.rest, slots, seen + {0})
        else
          match Find(fs, d.value / 8)
          case None =>
            (match SkipField(d.value % 8, d.rest)
             case None => None
             case Some(rest) => DecodeLoop(fs, rest, slots, seen))
          case Some(i) =>
            match DecodeField(fs, i, d.value % 8, d.rest, slots)
            case None => None
            case Some(field) => DecodeLoop(fs, field.rest, field.value, Saw(fs, i, seen))
  }

  function DecodeNoinit(fs: seq<Field>, input: Bytes, slots: seq<Slot>): (r: Option<seq<Slot>>)
    requires |slots| == |fs|
    ensures r.Some? ==> |r.value| == |fs|
    decreases fs, 2, |input|
  {
    match DecodeLoop(fs, input, slots, {})
    case None => None
    case Some(result) => if RequiredOk(fs, result.1) then Some(result.0) else None
  }

  // pb_decode.
  function Decode(fs: seq<Field>, input: Bytes): (r: Option<seq<Slot>>)
    ensures r.Some? ==> |r.value| == |fs|
  {
    DecodeNoinit(fs, input, Defaults(fs))
  }
}
