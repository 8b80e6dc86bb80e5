/** WriteBatch (db/write_batch.cc): a sequence number, a count, and the operations, all in
  one byte string that is appended to and patched in place. */
module WriteBatches {
  import opened Wrappers
  import opened Keys
  import opened Coding
  import opened Varints

  datatype Op = PutOp(key: Slice, value: Slice) | DeleteOp(key: Slice)

  const HEADER := 12

  function EncodeOp(op: Op): Bytes
  {
    match op
    case PutOp(k, v) => [1] + PutLengthPrefixedSlice(k) + PutLengthPrefixedSlice(v)
    case DeleteOp(k) => [0] + PutLengthPrefixedSlice(k)
  }

  function Join(parts: seq<Bytes>): Bytes {
    if parts == [] then [] else parts[0] + Join(parts[1..])
  }

  function Parts(ops: seq<Op>): (r: seq<Bytes>) {
    seq(|ops|, i requires 0 <= i < |ops| => EncodeOp(ops[i]))
  }

  function EncodeOps(ops: seq<Op>): Bytes {
    Join(Parts(ops))
  }

  lemma {:induction false} JoinConcat(a: seq<Bytes>, b: seq<Bytes>)
    ensures Join(a + b) == Join(a) + Join(b)
  {
    if a == [] {
      assert a + b == b;
    } else {
      assert (a + b)[1..] == a[1..] + b;
      JoinConcat(a[1..], b);
    }
  }

  // One round of the loop in WriteBatch::Iterate.
  function ParseOp(input: Bytes): Option<Decoded<Op>> {
    if input == [] then None
    else if input[0] == 1 then
      match GetLengthPrefixedSlice(input[1..])
      case Some(k) =>
        (match GetLengthPrefixedSlice(k.rest)
         case Some(v) => Some(Decoded(PutOp(k.value, v.value), v.rest))
         case None => None)
      case None => None
    else if input[0] == 0 then
      match GetLengthPrefixedSlice(input[1..])
      case Some(k) => Some(Decoded(DeleteOp(k.value), k.rest))
      case None => None
    else
      None
  }

  lemma AfterTag(tag: Byte, x: Bytes, y: Bytes, rest: Bytes)
    ensures ([tag] + x + y + rest)[0] == tag && ([tag] + x + y + rest)[1..] == x + (y + rest)
    ensures ([tag] + x + rest)[0] == tag && ([tag] + x + rest)[1..] == x + rest
  {
  }

  lemma PutRoundTrip(k: Slice, v: Slice, rest: Bytes)
    ensures ParseOp(EncodeOp(PutOp(k, v)) + rest) == Some(Decoded(PutOp(k, v), rest))
  {
    var x, y := PutLengthPrefixedSlice(k), PutLengthPrefixedSlice(v);
    AfterTag(1, x, y, rest);
    LengthPrefixedRoundTrip(k, y + rest);
    LengthPrefixedRoundTrip(v, rest);
  }

  lemma DeleteRoundTrip(k: Slice, rest: Bytes)
    ensures ParseOp(EncodeOp(DeleteOp(k)) + rest) == Some(Decoded(DeleteOp(k), rest))
  {
    AfterTag(0, PutLengthPrefixedSlice(k), [], rest);
    LengthPrefixedRoundTrip(k, rest);
  }

  lemma OpRoundTrip(op: Op, rest: Bytes)
    ensures ParseOp(EncodeOp(op) + rest) == Some(Decoded(op, rest))
  {
    match op
    case PutOp(k, v) => PutRoundTrip(k, v, rest);
    case DeleteOp(k) => DeleteRoundTrip(k, rest);
  }

  lemma {:induction false} DecodeConsumes(s: Bytes, shift: nat, result: nat)
    ensures DecodeFrom(s, shift, result).Some? ==> |DecodeFrom(s, shift, result).value.rest| < |s|
    decreases 35 - shift
  {
    if shift <= 28 && s != [] && s[0] >= 128 {
      DecodeConsumes(s[1..], shift + 7, result + Shifted(s[0], shift));
    }
  }

  lemma ParseConsumes(input: Bytes)
    ensures ParseOp(input).Some? ==> |ParseOp(input).value.rest| < |input|
  {
    if input != [] {
      DecodeConsumes(input[1..], 0, 0);
      if GetLengthPrefixedSlice(input[1..]).Some? {
        DecodeConsumes(GetLengthPrefixedSlice(input[1..]).value.rest, 0, 0);
      }
    }
  }

  lemma JoinOne(part: Bytes)
    ensures Join([part]) == part
  {
    assert Join([part][1..]) == [];
  }

  lemma OpsSplit(ops: seq<Op>)
    requires ops != []
    ensures EncodeOps(ops) == EncodeOp(ops[0]) + EncodeOps(ops[1..])
  {
    assert Parts(ops)[1..] == Parts(ops[1..]);
  }

  lemma EncodeConcat(a: seq<Op>, b: seq<Op>)
    ensures EncodeOps(a + b) == EncodeOps(a) + EncodeOps(b)
  {
    assert Parts(a + b) == Parts(a) + Parts(b);
    JoinConcat(Parts(a), Parts(b));
  }

  lemma EncodeAppend(ops: seq<Op>, op: Op)
    ensures EncodeOps(ops + [op]) == EncodeOps(ops) + EncodeOp(op)
  {
    EncodeConcat(ops, [op]);
    assert Parts([op]) == [EncodeOp(op)];
    JoinOne(EncodeOp(op));
  }

  lemma Assoc(a: Bytes, b: Bytes, c: Bytes)
    ensures (a + b) + c == a + (b + c)
  {
  }

  // The contents of a batch with these operations, as logged.
  function Contents(sequence: uint64, ops: seq<Op>): Bytes
    requires |ops| < 0x1_0000_0000
  {
    EncodeFixed64(sequence) + EncodeFixed32(|ops|) + EncodeOps(ops)
  }

  // The entries a batch stands for: consecutive sequence numbers, in order.
  function Numbered(sequence: nat, ops: seq<Op>): (r: seq<(nat, Op)>)
    ensures |r| == |ops|
    ensures forall i :: 0 <= i < |ops| ==> r[i] == (sequence + i, ops[i])
  {
    seq(|ops|, i requires 0 <= i < |ops| => (sequence + i, ops[i]))
  }

  // The operations at the front of the bytes, and what is left where none follows.
  datatype Parsed = Parsed(ops: seq<Op>, left: Bytes)

  function ParseOps(input: Bytes): (r: Parsed)
    decreases |input|
  {
    ParseConsumes(input);
    match ParseOp(input)
    case None => Parsed([], input)
    case Some(d) =>
      var more := ParseOps(d.rest);
      Parsed([d.value] + more.ops, more.left)
  }

  lemma ParseOpsStep(input: Bytes, op: Op, rest: Bytes)
    requires ParseOp(input) == Some(Decoded(op, rest))
    ensures ParseOps(input) == Parsed([op] + ParseOps(rest).ops, ParseOps(rest).left)
  {
  }

  lemma {:induction false} ParsesBack(ops: seq<Op>, bytes: Bytes)
    requires bytes == EncodeOps(ops)
    ensures ParseOps(bytes) == Parsed(ops, [])
    decreases |ops|
  {
    if ops == [] {
      assert bytes == [];
    } else {
      var rest := EncodeOps(ops[1..]);
      OpsSplit(ops);
      OpRoundTrip(ops[0], rest);
      ParseOpsStep(bytes, ops[0], rest);
      ParsesBack(ops[1..], rest);
      assert ops == [ops[0]] + ops[1..];
    }
  }

  // WriteBatch::Iterate: the operations handed to the handler, and whether all went well.
  datatype IterateResult = Done(ops: seq<Op>) | Corruption(handled: seq<Op>)

  function IterateOf(rep: Bytes): IterateResult {
    if |rep| < HEADER then Corruption([])
    else
      var parsed := ParseOps(rep[HEADER..]);
      if parsed.left == [] && |parsed.ops| == DecodeFixed32(rep[8..]) then Done(parsed.ops) else Corruption(parsed.ops)
  }

  lemma IterateBack(sequence: uint64, ops: seq<Op>)
    requires |ops| < 0x1_0000_0000
    ensures IterateOf(Contents(sequence, ops)) == Done(ops)
  {
    CountOf(sequence, ops);
    ParsesBack(ops, EncodeOps(ops));
  }

  method Iterate(rep: Bytes) returns (r: IterateResult)
    ensures r == IterateOf(rep)
  {
    if |rep| < HEADER {
      return Corruption([]);
    }
    var input := rep[HEADER..];
    var handled: seq<Op> := [];
    while input != []
      invariant ParseOps(rep[HEADER..]) == Parsed(handled + ParseOps(input).ops, ParseOps(input).left)
      decreases |input|
    {
      ParseConsumes(input);
      var next := ParseOp(input);
      if next.None? {
        return Corruption(handled);
      }
      assert handled + ([next.value.value] + ParseOps(next.value.rest).ops)
          == handled + [next.value.value] + ParseOps(next.value.rest).ops;
      handled := handled + [next.value.value];
      input := next.value.rest;
    }
    var count := DecodeFixed32(rep[8..]);
    r := if |handled| != count then Corruption(handled) else Done(handled);
  }

  // ---------- what the bytes of a batch have to be ----------

  ghost predicate IsOp(b: Bytes, op: Op) {
    match op
    case PutOp(k, v) => exists x, p, y, q :: b == [1] + x + y && IsSlice(x, p, k) && IsSlice(y, q, v)
    case DeleteOp(k) => exists x, p :: b == [0] + x && IsSlice(x, p, k)
  }

  // The bytes are these operations, one after the other, and no further one follows them.
  ghost predicate OpsAre(input: Bytes, ops: seq<Op>, parts: seq<Bytes>, left: Bytes) {
    && |parts| == |ops| && (forall i :: 0 <= i < |ops| ==> IsOp(parts[i], ops[i]))
    && input == Join(parts) + left && forall b, op :: b <= left ==> !IsOp(b, op)
  }

  lemma OpMeans(b: Bytes, op: Op, rest: Bytes)
    requires IsOp(b, op)
    ensures ParseOp(b + rest) == Some(Decoded(op, rest))
  {
    match op
    case PutOp(k, v) =>
      var x, p, y, q :| b == [1] + x + y && IsSlice(x, p, k) && IsSlice(y, q, v);
      AfterTag(1, x, y, rest);
      SliceMeans(x, p, k, y + rest);
      SliceMeans(y, q, v, rest);
    case DeleteOp(k) =>
      var x, p :| b == [0] + x && IsSlice(x, p, k);
      AfterTag(0, x, [], rest);
      SliceMeans(x, p, k, rest);
  }

  lemma OpTakes(input: Bytes) returns (b: Bytes)
    ensures ParseOp(input).Some? ==> input == b + ParseOp(input).value.rest && IsOp(b, ParseOp(input).value.value)
  {
    b := [];
    if ParseOp(input).Some? {
      var d := ParseOp(input).value;
      var x, p := SliceTakes(input[1..]);
      if input[0] == 1 {
        var y, q := SliceTakes(GetLengthPrefixedSlice(input[1..]).value.rest);
        b := [1] + x + y;
        assert input == [input[0]] + input[1..];
        AfterTag(1, x, y, d.rest);
        assert b + d.rest == [1] + (x + (y + d.rest));
      } else {
        b := [0] + x;
        assert input == [input[0]] + input[1..];
        assert b + d.rest == [0] + (x + d.rest);
      }
    }
  }

  lemma NoOpThere(left: Bytes)
    requires ParseOp(left).None?
    ensures forall b, op :: b <= left ==> !IsOp(b, op)
  {
    forall b, op
      ensures !(b <= left && IsOp(b, op))
    {
      if b <= left && IsOp(b, op) {
        var rest := left[|b|..];
        assert left == b + rest;
        OpMeans(b, op, rest);
      }
    }
  }

  lemma {:induction false} ParseOpsMeans(input: Bytes) returns (parts: seq<Bytes>)
    ensures OpsAre(input, ParseOps(input).ops, parts, ParseOps(input).left)
    decreases |input|
  {
    ParseConsumes(input);
    if ParseOp(input).None? {
      parts := [];
      NoOpThere(input);
      assert [] + input == input;
    } else {
      var b := OpTakes(input);
      var rest := ParseOp(input).value.rest;
      var more := ParseOpsMeans(rest);
      parts := [b] + more;
      assert parts[1..] == more;
      assert b + (Join(more) + ParseOps(rest).left) == Join(parts) + ParseOps(input).left;
    }
  }

  // The same, to be looked into only where OpsAre is written.
  ghost predicate OpsHere(input: Bytes, ops: seq<Op>, parts: seq<Bytes>, left: Bytes) {
    forall x {:trigger OpsAre(input, ops, parts, x)} :: x == left ==> OpsAre(input, ops, parts, x)
  }

  lemma NothingParsed(input: Bytes, parts: seq<Bytes>, left: Bytes)
    requires OpsHere(input, [], parts, left)
    ensures ParseOps(input) == Parsed([], left)
  {
    assert OpsAre(input, [], parts, left);
    assert input == left;
    var b := OpTakes(left);
    assert ParseOp(left).None?;
  }

  lemma FirstOp(input: Bytes, ops: seq<Op>, parts: seq<Bytes>, left: Bytes) returns (rest: Bytes)
    requires OpsHere(input, ops, parts, left) && ops != []
    ensures ParseOp(input) == Some(Decoded(ops[0], rest)) && |parts| == |ops| && OpsHere(rest, ops[1..], parts[1..], left)
  {
    assert OpsAre(input, ops, parts, left);
    rest := Join(parts[1..]) + left;
    assert input == parts[0] + rest;
    OpMeans(parts[0], ops[0], rest);
  }

  // The operations are determined by the bytes.
  lemma {:induction false} ParseOpsUnique(input: Bytes, ops: seq<Op>, parts: seq<Bytes>, left: Bytes)
    requires OpsHere(input, ops, parts, left)
    ensures ParseOps(input) == Parsed(ops, left)
    decreases |ops|
  {
    if ops == [] {
      NothingParsed(input, parts, left);
    } else {
      var rest := FirstOp(input, ops, parts, left);
      ParseOpsStep(input, ops[0], rest);
      ParseOpsUnique(rest, ops[1..], parts[1..], left);
      assert ops == [ops[0]] + ops[1..];
    }
  }

  // A batch is accepted exactly when its bytes are operations, as many as its count says.
  lemma IterateMeans(rep: Bytes, ops: seq<Op>)
    requires |rep| >= HEADER
    ensures IterateOf(rep) == Done(ops) <==>
            (exists parts :: OpsAre(rep[HEADER..], ops, parts, [])) && |ops| == DecodeFixed32(rep[8..])
    ensures IterateOf(rep) == Corruption(ops) ==> exists parts, left :: OpsAre(rep[HEADER..], ops, parts, left)
  {
    var parts := ParseOpsMeans(rep[HEADER..]);
    if qs :| OpsAre(rep[HEADER..], ops, qs, []) {
      ParseOpsUnique(rep[HEADER..], ops, qs, []);
    }
  }

  lemma Split3(a: Bytes, b: Bytes, c: Bytes)
    requires |a| == 8 && |b| == 4
    ensures (a + b + c)[8..] == b + c && (a + b + c)[HEADER..] == c && (a + b + c)[..8] == a
    ensures a + b + c == a + (b + c)
  {
  }

  lemma CountOf(sequence: uint64, ops: seq<Op>)
    requires |ops| < 0x1_0000_0000
    ensures |Contents(sequence, ops)| >= HEADER
    ensures Contents(sequence, ops)[..8] == EncodeFixed64(sequence)
    ensures DecodeFixed64(Contents(sequence, ops)) == sequence
    ensures DecodeFixed32(Contents(sequence, ops)[8..]) == |ops|
    ensures Contents(sequence, ops)[HEADER..] == EncodeOps(ops)
  {
    Split3(EncodeFixed64(sequence), EncodeFixed32(|ops|), EncodeOps(ops));
    Fixed64RoundTrip(sequence, EncodeFixed32(|ops|) + EncodeOps(ops));
    Fixed32RoundTrip(|ops|, EncodeOps(ops));
  }

  class WriteBatch {
    var rep: Bytes
    ghost var sequence: uint64
    ghost var ops: seq<Op>

    ghost predicate Valid()
      reads this
    {
      |ops| < 0x1_0000_0000 && rep == Contents(sequence, ops)
    }

    constructor ()
      ensures Valid() && ops == [] && sequence == 0
    {
      rep := seq(HEADER, _ => 0);
      sequence, ops := 0, [];
      new;
      assert rep == Contents(0, []);
    }

    method Clear()
      modifies this
      ensures Valid() && ops == []
    {
      rep := seq(HEADER, _ => 0);
      sequence, ops := 0, [];
      assert rep == Contents(0, []);
    }

    method SetSequence(s: uint64)
      requires Valid()
      modifies this
      ensures Valid() && ops == old(ops) && sequence == s
    {
      rep := EncodeFixed64(s) + rep[8..];
      sequence := s;
    }

    // SetCount patches bytes 8 to 11.
    method Put(key: Slice, value: Slice)
      requires Valid() && |ops| + 1 < 0x1_0000_0000
      modifies this
      ensures Valid() && ops == old(ops) + [PutOp(key, value)] && sequence == old(sequence)
    {
      Add(PutOp(key, value));
    }

    method Delete(key: Slice)
      requires Valid() && |ops| + 1 < 0x1_0000_0000
      modifies this
      ensures Valid() && ops == old(ops) + [DeleteOp(key)] && sequence == old(sequence)
    {
      Add(DeleteOp(key));
    }

    method Add(op: Op)
      requires Valid() && |ops| + 1 < 0x1_0000_0000
      modifies this
      ensures Valid() && ops == old(ops) + [op] && sequence == old(sequence)
    {
      CountOf(sequence, ops);
      var count := DecodeFixed32(rep[8..]);
      SetCount(count + 1);
      Assoc(EncodeFixed64(sequence) + EncodeFixed32(|ops| + 1), EncodeOps(ops), EncodeOp(op));
      rep := rep + EncodeOp(op);
      EncodeAppend(ops, op);
      ops := ops + [op];
    }

    // Only the four bytes of the count change.
    method SetCount(n: uint32)
      requires |rep| >= HEADER
      modifies this`rep
      ensures rep == old(rep)[..8] + EncodeFixed32(n) + old(rep)[HEADER..]
    {
      rep := rep[..8] + EncodeFixed32(n) + rep[HEADER..];
    }

    // WriteBatchInternal::Append: counts add up, the records of `source` follow ours.
    method Append(source: WriteBatch)
      requires Valid() && source.Valid() && |ops| + |source.ops| < 0x1_0000_0000
      modifies this
      ensures Valid() && ops == old(ops) + old(source.ops) && sequence == old(sequence)
    {
      rep := AppendRecords(rep, source.rep, sequence, ops, source.sequence, source.ops);
      ops := ops + source.ops;
    }
  }

  method AppendRecords(dst: Bytes, src: Bytes, ghost s: uint64, ghost a: seq<Op>, ghost t: uint64, ghost b: seq<Op>)
    returns (r: Bytes)
    requires |a| + |b| < 0x1_0000_0000
    requires dst == Contents(s, a) && src == Contents(t, b)
    ensures r == Contents(s, a + b)
  {
    CountOf(s, a);
    CountOf(t, b);
    AppendedContents(s, a, b);
    r := dst[..8] + EncodeFixed32(DecodeFixed32(dst[8..]) + DecodeFixed32(src[8..])) + dst[HEADER..] + src[HEADER..];
  }

  lemma AppendedContents(sequence: uint64, a: seq<Op>, b: seq<Op>)
    requires |a| + |b| < 0x1_0000_0000
    ensures EncodeFixed64(sequence) + EncodeFixed32(|a| + |b|) + EncodeOps(a) + EncodeOps(b) == Contents(sequence, a + b)
  {
    EncodeConcat(a, b);
    Assoc(EncodeFixed64(sequence) + EncodeFixed32(|a| + |b|), EncodeOps(a), EncodeOps(b));
  }
}
