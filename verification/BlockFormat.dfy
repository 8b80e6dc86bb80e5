/** The block format (table/block_builder.cc, table/block.cc): prefix-compressed entries, then
  the offsets of the restart points. */
module BlockFormat {
  import opened Wrappers
  import opened Keys
  import opened Coding
  import opened Varints

  datatype Pair = Pair(key: Slice, value: Slice)

  // An entry that drops the first `shared` bytes of its key.
  function EncodeEntry(shared: nat, p: Pair): (r: Bytes)
    requires shared <= |p.key|
  {
    EncodeVarint(shared) + (EncodeVarint(|p.key| - shared) + (EncodeVarint(|p.value|) + (p.key[shared..] + p.value)))
  }

  datatype Header = Header(shared: nat, nonShared: nat, valueLength: nat, rest: Bytes)

  function DecodeThree(get: Bytes -> Option<Decoded<nat>>, input: Bytes): Option<Header> {
    match get(input)
    case None => None
    case Some(a) =>
      match get(a.rest)
      case None => None
      case Some(b) =>
        match get(b.rest)
        case None => None
        case Some(c) => Some(Header(a.value, b.value, c.value, c.rest))
  }

  // The three lengths, each a varint; usually all of one byte.
  function DecodeLengths(input: Bytes): Option<Header> {
    if |input| < 3 then None
    else if input[0] < 128 && input[1] < 128 && input[2] < 128 then
      Some(Header(input[0], input[1], input[2], input[3..]))
    else
      DecodeThree(s => DecodeFrom(s, 0, 0), input)
  }

  // DecodeEntry: the lengths, if what they announce is there. The sum is taken in 32 bits.
  function DecodeEntry(input: Bytes): Option<Header> {
    Checked(DecodeLengths(input))
  }

  function Checked(lengths: Option<Header>): Option<Header> {
    match lengths
    case None => None
    case Some(h) => if |h.rest| < (h.nonShared + h.valueLength) % 0x1_0000_0000 then None else Some(h)
  }

  lemma OneByte(v: nat)
    ensures |EncodeVarint(v)| >= 1 && (v < 128 <==> EncodeVarint(v)[0] < 128)
    ensures v < 128 ==> EncodeVarint(v) == [v]
  {
  }

  lemma ThreeBytes(x: Byte, y: Byte, z: Bytes)
    requires z != []
    ensures ([x] + ([y] + z))[2] == z[0]
    ensures ([x] + ([y] + z))[3..] == z[1..]
  {
    var s := [x] + ([y] + z);
    assert forall i :: 0 <= i < |z| - 1 ==> s[3..][i] == z[1..][i];
  }

  // The three leading bytes are all small just when the three values are.
  lemma LeadingBytes(x: Bytes, y: Bytes, z: Bytes)
    requires x != [] && y != [] && z != []
    requires (x[0] < 128 ==> |x| == 1) && (y[0] < 128 ==> |y| == 1)
    ensures var s := x + (y + z); |s| >= 3 && s[0] == x[0]
    ensures var s := x + (y + z); x[0] < 128 ==> s[1] == y[0]
    ensures var s := x + (y + z); x[0] < 128 && y[0] < 128 ==> s[2] == z[0] && s[3..] == z[1..]
  {
    if x[0] < 128 && y[0] < 128 {
      assert x == [x[0]] && y == [y[0]];
      ThreeBytes(x[0], y[0], z);
    }
  }

  lemma SlowLengths(a: uint32, b: uint32, c: uint32, rest: Bytes, input: Bytes)
    requires input == EncodeVarint(a) + (EncodeVarint(b) + (EncodeVarint(c) + rest)) && |input| >= 3
    requires !(input[0] < 128 && input[1] < 128 && input[2] < 128)
    ensures DecodeLengths(input) == Some(Header(a, b, c, rest))
  {
    Varint32RoundTrip(a, EncodeVarint(b) + (EncodeVarint(c) + rest));
    Varint32RoundTrip(b, EncodeVarint(c) + rest);
    Varint32RoundTrip(c, rest);
    ThreeDecode(s => DecodeFrom(s, 0, 0), input, a, EncodeVarint(b) + (EncodeVarint(c) + rest),
                b, EncodeVarint(c) + rest, c, rest);
  }

  lemma ThreeDecode(get: Bytes -> Option<Decoded<nat>>, i0: Bytes, a: nat, i1: Bytes, b: nat, i2: Bytes, c: nat, i3: Bytes)
    requires get(i0) == Some(Decoded(a, i1)) && get(i1) == Some(Decoded(b, i2)) && get(i2) == Some(Decoded(c, i3))
    ensures DecodeThree(get, i0) == Some(Header(a, b, c, i3))
  {
  }

  lemma LengthsRoundTrip(a: uint32, b: uint32, c: uint32, rest: Bytes)
    ensures DecodeLengths(EncodeVarint(a) + (EncodeVarint(b) + (EncodeVarint(c) + rest))) == Some(Header(a, b, c, rest))
  {
    var x, y, z := EncodeVarint(a), EncodeVarint(b), EncodeVarint(c);
    var input := x + (y + (z + rest));
    OneByte(a);
    OneByte(b);
    OneByte(c);
    LeadingBytes(x, y, z + rest);
    if a < 128 && b < 128 && c < 128 {
      assert (z + rest)[1..] == rest;
    } else {
      SlowLengths(a, b, c, rest, input);
    }
  }

  // Three lengths, and what follows them.
  ghost predicate IsHeader(input: Bytes, x: Bytes, y: Bytes, z: Bytes, h: Header) {
    && input == x + (y + (z + h.rest))
    && IsNumber32(x, h.shared) && IsNumber32(y, h.nonShared) && IsNumber32(z, h.valueLength)
  }

  lemma SmallNumber(x: Bytes, n: nat)
    requires IsNumber32(x, n)
    ensures x[0] < 128 <==> |x| == 1
    ensures |x| == 1 ==> n == x[0] as int
  {
    if |x| == 1 {
      assert x[1..] == [] && x[0] < 128;
      assert Base128(x) == x[0] as int % 128 + 128 * Base128([]);
    }
  }

  lemma HeaderReads(input: Bytes, x: Bytes, y: Bytes, z: Bytes, h: Header)
    requires IsHeader(input, x, y, z, h)
    ensures DecodeLengths(input) == Some(h)
  {
    SmallNumber(x, h.shared);
    SmallNumber(y, h.nonShared);
    SmallNumber(z, h.valueLength);
    LeadingBytes(x, y, z + h.rest);
    if x[0] < 128 && y[0] < 128 && z[0] < 128 {
      assert (z + h.rest)[1..] == h.rest;
    } else {
      Varint32Means(x, y + (z + h.rest));
      Varint32Means(y, z + h.rest);
      Varint32Means(z, h.rest);
      ThreeDecode(s => DecodeFrom(s, 0, 0), input, h.shared, y + (z + h.rest), h.nonShared, z + h.rest, h.valueLength, h.rest);
    }
  }

  lemma OneByteNumber(b: Byte)
    requires b < 128
    ensures IsNumber32([b], b as int)
  {
    assert [b][1..] == [];
  }

  lemma LengthsTake(input: Bytes, h: Header) returns (x: Bytes, y: Bytes, z: Bytes)
    requires DecodeLengths(input) == Some(h)
    ensures IsHeader(input, x, y, z, h)
  {
    if input[0] < 128 && input[1] < 128 && input[2] < 128 {
      x, y, z := [input[0]], [input[1]], [input[2]];
      OneByteNumber(input[0]);
      OneByteNumber(input[1]);
      OneByteNumber(input[2]);
    } else {
      x := Number32Takes(input);
      var a := DecodeFrom(input, 0, 0).value;
      y := Number32Takes(a.rest);
      var b := DecodeFrom(a.rest, 0, 0).value;
      z := Number32Takes(b.rest);
    }
  }

  lemma CheckedIs(lengths: Option<Header>, h: Header)
    ensures Checked(lengths) == Some(h) <==>
            lengths == Some(h) && (h.nonShared + h.valueLength) % 0x1_0000_0000 <= |h.rest|
  {
  }

  lemma LengthsMean(input: Bytes, h: Header)
    ensures DecodeLengths(input) == Some(h) <==> exists x, y, z :: IsHeader(input, x, y, z, h)
  {
    if DecodeLengths(input) == Some(h) {
      var x, y, z := LengthsTake(input, h);
    }
    if x, y, z :| IsHeader(input, x, y, z, h) {
      HeaderReads(input, x, y, z, h);
    }
  }

  // Any bytes are an entry exactly when they begin with three lengths and have the bytes that
  // the last two announce, counted in 32 bits.
  lemma DecodeEntryMeans(input: Bytes, h: Header)
    ensures DecodeEntry(input) == Some(h) <==>
            && (exists x, y, z :: IsHeader(input, x, y, z, h))
            && (h.nonShared + h.valueLength) % 0x1_0000_0000 <= |h.rest|
  {
    CheckedIs(DecodeLengths(input), h);
    LengthsMean(input, h);
  }

  lemma LengthsChecked(input: Bytes, h: Header)
    requires DecodeLengths(input) == Some(h)
    requires h.nonShared + h.valueLength < 0x1_0000_0000 && h.nonShared + h.valueLength <= |h.rest|
    ensures DecodeEntry(input) == Some(h)
  {
  }

  lemma EntryRoundTrip(shared: nat, p: Pair, rest: Bytes)
    requires shared <= |p.key| && |p.key| - shared + |p.value| < 0x1_0000_0000
    ensures DecodeEntry(EncodeEntry(shared, p) + rest)
         == Some(Header(shared, |p.key| - shared, |p.value|, p.key[shared..] + p.value + rest))
  {
    var tail := p.key[shared..] + p.value;
    LengthsRoundTrip(shared, |p.key| - shared, |p.value|, tail + rest);
    Nest(EncodeVarint(shared), EncodeVarint(|p.key| - shared), EncodeVarint(|p.value|), tail, rest);
    LengthsChecked(EncodeEntry(shared, p) + rest, Header(shared, |p.key| - shared, |p.value|, tail + rest));
  }

  lemma Nest(x: Bytes, y: Bytes, z: Bytes, tail: Bytes, rest: Bytes)
    ensures (x + (y + (z + tail))) + rest == x + (y + (z + (tail + rest)))
  {
  }

  lemma EntrySize(shared: nat, p: Pair)
    requires shared <= |p.key|
    ensures |EncodeEntry(shared, p)| >= 3 + |p.key| - shared + |p.value|
  {
    OneByte(shared);
    OneByte(|p.key| - shared);
    OneByte(|p.value|);
  }

  // Where everything is in a block: entry i is the bytes from offsets[i] to offsets[i + 1]
  // and drops shared[i] bytes; restarts lists the entries at restart points.
  datatype Layout = Layout(pairs: seq<Pair>, offsets: seq<nat>, shared: seq<nat>, restarts: seq<nat>)

  function PreviousKey(l: Layout, i: nat): Bytes
    requires i <= |l.pairs|
  {
    if i == 0 then [] else l.pairs[i - 1].key
  }

  ghost predicate EntryAt(data: Bytes, l: Layout, i: nat)
    requires i < |l.pairs| == |l.shared| && |l.offsets| == |l.pairs| + 1
  {
    var p, s := l.pairs[i], l.shared[i];
    && s <= |p.key| && s <= |PreviousKey(l, i)| && PreviousKey(l, i)[..s] == p.key[..s]
    && l.offsets[i + 1] == l.offsets[i] + |EncodeEntry(s, p)| <= |data|
    && data[l.offsets[i]..l.offsets[i + 1]] == EncodeEntry(s, p)
  }

  ghost predicate EntriesAt(data: Bytes, l: Layout)
  {
    && |l.shared| == |l.pairs| && |l.offsets| == |l.pairs| + 1 && l.offsets[0] == 0
    && l.offsets[|l.pairs|] <= |data| < 0x1_0000_0000
    && forall i :: 0 <= i < |l.pairs| ==> EntryAt(data, l, i)
  }

  ghost predicate RestartAt(l: Layout, j: nat)
    requires j < |l.restarts| && |l.shared| == |l.pairs|
  {
    && (l.restarts[j] < |l.pairs| || (l.restarts[j] == 0 == |l.pairs|))
    && (l.restarts[j] < |l.pairs| ==> l.shared[l.restarts[j]] == 0)
    && (j > 0 ==> l.restarts[j - 1] < l.restarts[j])
  }

  ghost predicate RestartsAt(l: Layout) {
    && |l.shared| == |l.pairs| && 0 < |l.restarts| < 0x1_0000_0000 && l.restarts[0] == 0
    && forall j :: 0 <= j < |l.restarts| ==> RestartAt(l, j)
  }

  lemma {:induction false} OffsetsAscend(data: Bytes, l: Layout, i: nat, j: nat)
    requires EntriesAt(data, l) && i <= j <= |l.pairs|
    ensures l.offsets[i] + (j - i) <= l.offsets[j]
    decreases j
  {
    if i < j {
      OffsetsAscend(data, l, i, j - 1);
      assert EntryAt(data, l, j - 1);
      EntrySize(l.shared[j - 1], l.pairs[j - 1]);
    }
  }

  lemma {:induction false} RestartsAscend(l: Layout, j: nat, k: nat)
    requires RestartsAt(l) && j <= k < |l.restarts|
    ensures l.restarts[j] + (k - j) <= l.restarts[k]
    decreases k
  {
    if j < k {
      RestartsAscend(l, j, k - 1);
      assert RestartAt(l, k);
    }
  }

  // What the reader finds at the offset of an entry.
  lemma DecodeAt(data: Bytes, l: Layout, i: nat, limit: nat)
    requires EntriesAt(data, l) && i < |l.pairs| && limit == l.offsets[|l.pairs|]
    ensures l.offsets[i] < l.offsets[i + 1] <= limit <= |data|
    ensures var p, s := l.pairs[i], l.shared[i];
            && s <= |p.key| && s <= |PreviousKey(l, i)| && PreviousKey(l, i)[..s] + p.key[s..] == p.key
            && DecodeEntry(data[l.offsets[i]..limit])
               == Some(Header(s, |p.key| - s, |p.value|, p.key[s..] + p.value + data[l.offsets[i + 1]..limit]))
  {
    assert EntryAt(data, l, i);
    OffsetsAscend(data, l, i + 1, |l.pairs|);
    var p, s := l.pairs[i], l.shared[i];
    EntrySize(s, p);
    var a, b := l.offsets[i], l.offsets[i + 1];
    assert data[a..limit] == data[a..b] + data[b..limit];
    EntryRoundTrip(s, p, data[b..limit]);
    assert p.key[..s] + p.key[s..] == p.key;
  }
}
