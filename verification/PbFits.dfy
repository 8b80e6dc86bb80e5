/** What is decoded is a message of its schema: numbers in the range of their type, lengths and
  counts within their bounds, one member of a oneof at most (pb_decode.c). */
module PbFits {
  import opened Wrappers
  import opened Keys
  import opened Coding
  import opened PbVarint
  import opened PbMessage
  import opened PbDecoding

  lemma {:induction false} DefaultFits(lt: LType)
    requires ValidType(lt)
    ensures FitsValue(lt, DefaultValue(lt))
    decreases lt, 1
  {
    if lt.Submessage? {
      DefaultsFit(lt.fields);
    }
  }

  lemma {:induction false} DefaultsFit(fs: seq<Field>)
    requires ValidFields(fs)
    ensures FitsMessage(fs, Defaults(fs))
    decreases fs
  {
    var slots := Defaults(fs);
    forall i | 0 <= i < |fs|
      ensures FitsSlot(fs[i], slots[i])
    {
      assert ValidField(fs[i]) && slots[i] == DefaultSlot(fs[i]);
      DefaultSlotFits(fs[i]);
    }
  }

  lemma {:induction false} DefaultSlotFits(f: Field)
    requires ValidField(f)
    ensures FitsSlot(f, DefaultSlot(f))
    decreases f
  {
    if f.rule.Required? {
      DefaultFits(f.ltype);
    }
  }

  // ---------- one field ----------

  lemma {:induction false} LeafFits(lt: LType, input: Bytes, current: PbValue)
    requires !lt.Submessage?
    ensures DecodeValue(lt, input, current).Some? ==> FitsValue(lt, DecodeValue(lt, input, current).value.value)
  {
  }

  lemma {:induction false} ValueFits(lt: LType, input: Bytes, current: PbValue)
    requires ValidType(lt) && FitsValue(lt, current)
    ensures DecodeValue(lt, input, current).Some? ==> FitsValue(lt, DecodeValue(lt, input, current).value.value)
    decreases lt, 0, |input|
  {
    if !lt.Submessage? {
      LeafFits(lt, input, current);
    } else if DecodeString(input).Some? {
      NoinitFits(lt.fields, DecodeString(input).value.value, current.slots);
    }
  }

  ghost predicate ItemsFit(lt: LType, items: seq<PbValue>, arraySize: nat) {
    |items| <= arraySize && forall i :: 0 <= i < |items| ==> FitsValue(lt, items[i])
  }

  lemma {:induction false} PackedFits(lt: LType, sub: Bytes, items: seq<PbValue>, arraySize: nat)
    requires ValidType(lt) && ItemsFit(lt, items, arraySize)
    ensures DecodeItems(lt, sub, items, arraySize).Some? ==> ItemsFit(lt, DecodeItems(lt, sub, items, arraySize).value, arraySize)
    decreases lt, 1, |sub|
  {
    if sub != [] && |items| < arraySize {
      DefaultFits(lt);
      ValueFits(lt, sub, DefaultValue(lt));
      var d := DecodeValue(lt, sub, DefaultValue(lt));
      if d.Some? {
        PackedFits(lt, d.value.rest, items + [d.value.value], arraySize);
      }
    }
  }

  // Setting a slot to something that fits.
  lemma {:induction false} SetFits(fs: seq<Field>, slots: seq<Slot>, i: nat, slot: Slot)
    requires FitsMessage(fs, slots) && i < |fs| && FitsSlot(fs[i], slot) && !fs[i].rule.Oneof?
    ensures FitsMessage(fs, slots[i := slot])
  {
  }

  lemma {:induction false} ChooseFits(fs: seq<Field>, slots: seq<Slot>, i: nat, v: PbValue)
    requires FitsMessage(fs, slots) && i < |fs| && fs[i].rule.Oneof? && FitsValue(fs[i].ltype, v)
    ensures FitsMessage(fs, Choose(fs, slots, i, v))
  {
    var r := Choose(fs, slots, i, v);
    forall j | 0 <= j < |fs|
      ensures FitsSlot(fs[j], r[j])
    {
      assert FitsSlot(fs[j], slots[j]);
    }
  }

  lemma {:induction false} CurrentFits(f: Field, slot: Slot)
    requires ValidField(f) && FitsSlot(f, slot)
    ensures FitsValue(f.ltype, Current(f, slot))
  {
    DefaultFits(f.ltype);
  }

  lemma {:induction false} SingleFits(fs: seq<Field>, i: nat, wire: nat, input: Bytes, slots: seq<Slot>)
    requires ValidFields(fs) && i < |fs| && FitsMessage(fs, slots) && !fs[i].rule.Repeated?
    ensures DecodeField(fs, i, wire, input, slots).Some? ==> FitsMessage(fs, DecodeField(fs, i, wire, input, slots).value.value)
    decreases fs[i], 0, |input|, 0
  {
    var f := fs[i];
    assert ValidField(f) && FitsSlot(f, slots[i]);
    CurrentFits(f, slots[i]);
    ValueFits(f.ltype, input, Current(f, slots[i]));
    var d := DecodeValue(f.ltype, input, Current(f, slots[i]));
    if d.Some? {
      match f.rule
      case Required => SetFits(fs, slots, i, One(d.value.value));
      case Optional => SetFits(fs, slots, i, Maybe(Some(d.value.value)));
      case Oneof(_) => ChooseFits(fs, slots, i, d.value.value);
    }
  }

  lemma {:induction false} RepeatedFits(fs: seq<Field>, i: nat, wire: nat, input: Bytes, slots: seq<Slot>)
    requires ValidFields(fs) && i < |fs| && FitsMessage(fs, slots) && fs[i].rule.Repeated?
    ensures DecodeField(fs, i, wire, input, slots).Some? ==> FitsMessage(fs, DecodeField(fs, i, wire, input, slots).value.value)
    decreases fs[i], 0, |input|, 0
  {
    var f := fs[i];
    assert ValidField(f) && FitsSlot(f, slots[i]);
    var items := slots[i].items;
    DefaultFits(f.ltype);
    if wire == 2 && Packable(f.ltype) {
      if DecodeString(input).Some? {
        var sub := DecodeString(input).value.value;
        PackedFits(f.ltype, sub, items, f.rule.arraySize);
        var more := DecodeItems(f.ltype, sub, items, f.rule.arraySize);
        if more.Some? {
          SetFits(fs, slots, i, Many(more.value));
        }
      }
    } else if |items| < f.rule.arraySize {
      ValueFits(f.ltype, input, DefaultValue(f.ltype));
      var d := DecodeValue(f.ltype, input, DefaultValue(f.ltype));
      if d.Some? {
        SetFits(fs, slots, i, Many(items + [d.value.value]));
      }
    }
  }

  // ---------- the message ----------

  lemma {:induction false} LoopFits(fs: seq<Field>, input: Bytes, slots: seq<Slot>, seen: set<nat>)
    requires ValidFields(fs) && FitsMessage(fs, slots)
    ensures DecodeLoop(fs, input, slots, seen).Some? ==> FitsMessage(fs, DecodeLoop(fs, input, slots, seen).value.0)
    decreases fs, 1, |input|
  {
    if input != [] && DecodeVarint32(input).Some? && DecodeVarint32(input).value.value != 0 {
      var d := DecodeVarint32(input).value;
      if fs == [] && d.value / 8 == 0 {
        if DecodeVarint32(d.rest).Some? {
          LoopFits(fs, DecodeVarint32(d.rest).value.rest, slots, seen + {0});
        }
      } else {
        match Find(fs, d.value / 8)
        case None =>
          if SkipField(d.value % 8, d.rest).Some? {
            LoopFits(fs, SkipField(d.value % 8, d.rest).value, slots, seen);
          }
        case Some(i) =>
          FieldFits(fs, i, d.value % 8, d.rest, slots);
          var field := DecodeField(fs, i, d.value % 8, d.rest, slots);
          if field.Some? {
            LoopFits(fs, field.value.rest, field.value.value, Saw(fs, i, seen));
          }
      }
    }
  }

  lemma {:induction false} FieldFits(fs: seq<Field>, i: nat, wire: nat, input: Bytes, slots: seq<Slot>)
    requires ValidFields(fs) && i < |fs| && FitsMessage(fs, slots)
    ensures DecodeField(fs, i, wire, input, slots).Some? ==> FitsMessage(fs, DecodeField(fs, i, wire, input, slots).value.value)
    decreases fs[i], 0, |input|, 1
  {
    if fs[i].rule.Repeated? {
      RepeatedFits(fs, i, wire, input, slots);
    } else {
      SingleFits(fs, i, wire, input, slots);
    }
  }

  // Whatever the bytes, a message that decodes into one that fits its schema fits it.
  lemma {:induction false} NoinitFits(fs: seq<Field>, input: Bytes, slots: seq<Slot>)
    requires ValidFields(fs) && FitsMessage(fs, slots)
    ensures DecodeNoinit(fs, input, slots).Some? ==> FitsMessage(fs, DecodeNoinit(fs, input, slots).value)
    decreases fs, 2, |input|
  {
    LoopFits(fs, input, slots, {});
  }

  // pb_decode: from the defaults.
  lemma DecodedFits(fs: seq<Field>, input: Bytes)
    requires ValidFields(fs)
    ensures Decode(fs, input).Some? ==> FitsMessage(fs, Decode(fs, input).value)
  {
    DefaultsFit(fs);
    NoinitFits(fs, input, Defaults(fs));
  }
}
