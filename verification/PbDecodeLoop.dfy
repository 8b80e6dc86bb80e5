/** The decoding loop as it runs (pb_decode.c) with the cyclic field iterator (pb_common.c)
  and the bitmask of required fields. A word of the mask is the set of its one bits. */
module PbDecodeLoop {
  import opened Wrappers
  import opened Keys
  import opened Coding
  import opened PbVarint
  import opened PbMessage
  import opened PbDecoding
  import opened PbRecords

  class FieldIter {
    const fields: seq<Field>
    var pos: nat
    var requiredFieldIndex: nat

    ghost predicate Valid()
      reads this
    {
      (pos < |fields| || (fields == [] && pos == 0)) && requiredFieldIndex == RequiredBefore(fields, pos)
    }

    // pb_field_iter_begin. Without fields the position is that of the terminator.
    constructor (fs: seq<Field>)
      ensures Valid() && fields == fs && pos == 0
    {
      fields, pos, requiredFieldIndex := fs, 0, 0;
    }

    // pb_field_iter_next: false when it wraps around.
    method Next() returns (more: bool)
      requires Valid()
      modifies this
      ensures Valid() && pos == if more then old(pos) + 1 else 0
      ensures more <==> old(pos) + 1 < |fields|
    {
      if fields == [] {
        return false;
      }
      if pos + 1 == |fields| {
        pos, requiredFieldIndex := 0, 0;
        return false;
      }
      if fields[pos].rule.Required? {
        requiredFieldIndex := requiredFieldIndex + 1;
      }
      pos := pos + 1;
      return true;
    }

    // The field k steps on from a start.
    ghost function Around(start: nat, k: nat): (i: nat)
      requires start < |fields| && k <= |fields|
      ensures k < |fields| ==> i < |fields|
    {
      if start + k < |fields| then start + k else start + k - |fields|
    }

    // pb_field_iter_find: once around, from where it is.
    method FindTag(tag: nat) returns (found: bool)
      requires Valid() && ValidFields(fields)
      modifies this
      ensures Valid()
      ensures fields == [] ==> (found <==> tag == 0)
      ensures fields != [] ==> Find(fields, tag) == if found then Some(pos) else None
    {
      if fields == [] {
        // The terminator has tag 0; there is no next field.
        return tag == 0;
      }
      var start := pos;
      ghost var steps := 0;
      while true
        invariant Valid() && start < |fields| && steps < |fields| && pos == Around(start, steps)
        invariant forall k :: 0 <= k < steps ==> fields[Around(start, k)].tag != tag
        decreases |fields| - steps
      {
        if fields[pos].tag == tag {
          TagIsUnique(fields, tag, pos);
          return true;
        }
        var _ := Next();
        steps := steps + 1;
        if pos == start {
          break;
        }
      }
      forall i | 0 <= i < |fields|
        ensures fields[i].tag != tag
      {
        ghost var k := if i >= start then i - start else i - start + |fields|;
        assert Around(start, k) == i;
      }
      return false;
    }

    // Step to the last field; the number of required fields in the message.
    method CountRequired() returns (count: nat)
      requires Valid()
      modifies this
      ensures Valid() && count == RequiredBefore(fields, |fields|)
    {
      if fields == [] {
        return 0;
      }
      var last := fields[pos].rule;
      count := requiredFieldIndex;
      var more := Next();
      while more
        invariant Valid()
        invariant more ==> pos > 0 && count == RequiredBefore(fields, pos - 1) && last == fields[pos - 1].rule
        invariant !more ==> count == RequiredBefore(fields, |fields| - 1) && last == fields[|fields| - 1].rule
        decreases more, |fields| - pos
      {
        last := fields[pos].rule;
        count := requiredFieldIndex;
        more := Next();
      }
      // The last field may be required, too.
      if last.Required? {
        count := count + 1;
      }
    }
  }

  lemma TagIsUnique(fs: seq<Field>, tag: nat, i: nat)
    requires ValidFields(fs) && i < |fs| && fs[i].tag == tag
    ensures Find(fs, tag) == Some(i)
  {
    assert Find(fs, tag).Some?;
  }

  // ---------- the bitmask ----------

  type Word = bits: set<nat> | forall b :: b in bits ==> b < 32

  // The two words stand for a set of indexes below 64.
  ghost function SeenBits(words: seq<Word>): set<nat>
    requires |words| == 2
  {
    set k | 0 <= k < MAX_REQUIRED_FIELDS && k % 32 in words[k / 32]
  }

  function LowBits(n: nat): (w: Word)
    requires n <= 32
    ensures forall b :: b in w <==> 0 <= b < n
  {
    if n == 0 then {} else LowBits(n - 1) + {n - 1}
  }

  const ALL_BITS: Word := LowBits(32)

  method SetSeen(words: seq<Word>, index: nat) returns (r: seq<Word>)
    requires |words| == 2 && index < MAX_REQUIRED_FIELDS
    ensures |r| == 2 && SeenBits(r) == SeenBits(words) + {index}
  {
    r := words[index / 32 := words[index / 32] + {index % 32}];
    forall k
      ensures k in SeenBits(r) <==> k in SeenBits(words) + {index}
    {
      assert 0 <= k < 64 && k % 32 == index % 32 && k / 32 == index / 32 ==> k == index;
    }
  }

  // Check that all required fields were present: whole words, then the remaining bits.
  method CheckRequired(words: seq<Word>, required: nat) returns (ok: bool)
    requires |words| == 2 && (required > 0 ==> forall k :: k in SeenBits(words) ==> k < required)
    ensures ok <==> forall k :: 0 <= k < required && k < MAX_REQUIRED_FIELDS ==> k in SeenBits(words)
  {
    var count := if required > MAX_REQUIRED_FIELDS then MAX_REQUIRED_FIELDS else required;
    var i := 0;
    while i < count / 32
      invariant i <= count / 32 && forall j :: 0 <= j < i ==> words[j] == ALL_BITS
    {
      if words[i] != ALL_BITS {
        MissingBit(words, i);
        return false;
      }
      i := i + 1;
    }
    WholeWords(words, count / 32);
    if count % 32 != 0 {
      if words[count / 32] != LowBits(count % 32) {
        LowWord(words, count);
        return false;
      }
    }
    ok := true;
  }

  lemma MissingBit(words: seq<Word>, i: nat)
    requires |words| == 2 && i < 2 && words[i] != ALL_BITS
    ensures exists k :: 32 * i <= k < 32 * i + 32 && k !in SeenBits(words)
  {
    var b :| 0 <= b < 32 && b !in words[i];
    assert (32 * i + b) / 32 == i && (32 * i + b) % 32 == b;
    assert 32 * i + b !in SeenBits(words);
  }

  lemma WholeWords(words: seq<Word>, n: nat)
    requires |words| == 2 && n <= 2 && forall j :: 0 <= j < n ==> words[j] == ALL_BITS
    ensures forall k :: 0 <= k < 32 * n ==> k in SeenBits(words)
  {
    forall k | 0 <= k < 32 * n
      ensures k in SeenBits(words)
    {
      assert k / 32 < n && words[k / 32] == ALL_BITS;
    }
  }

  lemma LowWord(words: seq<Word>, count: nat)
    requires |words| == 2 && count < 64 && count % 32 != 0 && words[count / 32] != LowBits(count % 32)
    requires forall k :: k in SeenBits(words) ==> k < count
    ensures exists k :: count / 32 * 32 <= k < count && k !in SeenBits(words)
  {
    var w, base := words[count / 32], count / 32 * 32;
    forall b | b in w
      ensures b < count % 32
    {
      assert (base + b) / 32 == count / 32 && (base + b) % 32 == b;
      assert base + b in SeenBits(words);
    }
    FullLowBits(w, count % 32);
    var b :| 0 <= b < count % 32 && b !in w;
    assert (base + b) / 32 == count / 32 && (base + b) % 32 == b;
    assert base + b !in SeenBits(words);
  }

  lemma FullLowBits(w: Word, n: nat)
    requires n <= 32 && forall b :: b in w ==> b < n
    ensures (forall b :: 0 <= b < n ==> b in w) ==> w == LowBits(n)
  {
  }

  // ---------- the loop ----------

  // Only required fields that there are get marked.
  ghost predicate MarksFields(fs: seq<Field>, words: seq<Word>) {
    |words| == 2 && (fs != [] ==> forall k :: k in SeenBits(words) ==> k < RequiredBefore(fs, |fs|))
  }

  // A field after its tag, of the wire type `wire`.
  method DecodeFound(fs: seq<Field>, iter: FieldIter, wire: nat, input: Bytes, slots: seq<Slot>, words: seq<Word>)
    returns (rest: Option<Bytes>, next: seq<Slot>, marked: seq<Word>)
    requires iter.Valid() && iter.fields == fs != [] && ValidFields(fs) && |slots| == |fs| && MarksFields(fs, words)
    ensures MarksFields(fs, marked) && SeenBits(marked) == Saw(fs, iter.pos, SeenBits(words)) && |next| == |fs|
    ensures DecodeField(fs, iter.pos, wire, input, slots) == if rest.None? then None else Some(Decoded(next, rest.value))
  {
    next, marked := slots, words;
    if fs[iter.pos].rule.Required? && iter.requiredFieldIndex < MAX_REQUIRED_FIELDS {
      RequiredAscends(fs, iter.pos + 1, |fs|);
      marked := SetSeen(words, iter.requiredFieldIndex);
    }
    var field := DecodeField(fs, iter.pos, wire, input, slots);
    if field.None? {
      return None, next, marked;
    }
    rest, next := Some(field.value.rest), field.value.value;
  }

  // Once around the loop, after a tag that is not 0: None is an error.
  method DecodeTagged(fs: seq<Field>, iter: FieldIter, tag: nat, input: Bytes, slots: seq<Slot>, words: seq<Word>)
    returns (rest: Option<Bytes>, next: seq<Slot>, marked: seq<Word>)
    requires iter.Valid() && iter.fields == fs && ValidFields(fs) && |slots| == |fs| && MarksFields(fs, words)
    modifies iter
    ensures iter.Valid() && MarksFields(fs, marked) && |next| == |fs|
    ensures rest.Some? ==> |rest.value| <= |input|
    ensures forall whole: Bytes :: DecodeVarint32(whole) == Some(Decoded(tag, input)) && whole != [] && tag != 0 ==>
              DecodeLoop(fs, whole, slots, SeenBits(words))
              == if rest.None? then None else DecodeLoop(fs, rest.value, next, SeenBits(marked))
  {
    next, marked := slots, words;
    var found := iter.FindTag(tag / 8);
    if !found {
      // No match found, skip data.
      rest := SkipField(tag % 8, input);
    } else if fs == [] {
      // The terminator, read like a bool.
      marked := SetSeen(words, 0);
      var b := DecodeVarint32(input);
      rest := if b.None? then None else Some(b.value.rest);
    } else {
      rest, next, marked := DecodeFound(fs, iter, tag % 8, input, slots, words);
    }
  }

  // The loop of pb_decode_noinit: None is an error.
  method DecodeAllFields(fs: seq<Field>, iter: FieldIter, stream: Bytes, dest: seq<Slot>)
    returns (r: Option<seq<Slot>>, fieldsSeen: seq<Word>)
    requires iter.Valid() && iter.fields == fs && ValidFields(fs) && |dest| == |fs|
    modifies iter
    ensures iter.Valid() && MarksFields(fs, fieldsSeen)
    ensures DecodeLoop(fs, stream, dest, {}) == if r.None? then None else Some((r.value, SeenBits(fieldsSeen)))
  {
    var input, slots := stream, dest;
    fieldsSeen := [{}, {}];
    assert SeenBits(fieldsSeen) == {};
    while input != []
      invariant iter.Valid() && |slots| == |fs| && MarksFields(fs, fieldsSeen)
      invariant DecodeLoop(fs, stream, dest, {}) == DecodeLoop(fs, input, slots, SeenBits(fieldsSeen))
      decreases |input|
    {
      var d := DecodeVarint32(input);
      if d.None? {
        return None, fieldsSeen;
      }
      if d.value.value == 0 {
        break;
      }
      var rest;
      rest, slots, fieldsSeen := DecodeTagged(fs, iter, d.value.value, d.value.rest, slots, fieldsSeen);
      if rest.None? {
        return None, fieldsSeen;
      }
      input := rest.value;
    }
    r := Some(slots);
  }

  // pb_decode_noinit: accepts the streams of records that decode, with the required fields there.
  method PbDecodeNoinit(fs: seq<Field>, stream: Bytes, dest: seq<Slot>) returns (r: Option<seq<Slot>>)
    requires ValidFields(fs) && |dest| == |fs|
    ensures r == DecodeNoinit(fs, stream, dest) && Decodes(fs, stream, dest, r)
  {
    var iter := new FieldIter(fs);
    var fieldsSeen;
    r, fieldsSeen := DecodeAllFields(fs, iter, stream, dest);
    if r.Some? {
      var required := iter.CountRequired();
      var ok := CheckRequired(fieldsSeen, required);
      if !ok {
        r := None;
      }
    }
    DecodeIsDecoding(fs, stream, dest, r);
  }
}
